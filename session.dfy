/**
 * src/session/sessionManager.js: the per-target cookie jar (`CookieStore`), the in-memory
 * session store, and the two request gates `ensureSession` and `checkBandwidthLimit`.
 * Time is an explicit `now` in milliseconds; `new Date(s)` on an `Expires` value is the
 * parameter `parseDate`, `None` where it gives an invalid date.
 */
module SessionManager {
  import opened Wrappers
  import opened Strings
  import opened OrderedMap
  import opened Numbers

  // ----------------------------------------------------------------- parseCookie

  /** The largest time value a JavaScript `Date` can hold (`toISOString` throws beyond it). */
  const MaxTime: int := 8_640_000_000_000_000

  /** `parseDate(s)`: `new Date(s)` as a time value, `None` for an invalid date. */
  type DateParser = string -> Option<int>

  /** The object `parseCookie` builds. `None` is JavaScript's `undefined`. */
  datatype ParsedCookie = ParsedCookie(
    name: string, value: Option<string>, expires: Option<int>, domain: Option<string>,
    path: Option<string>, httpOnly: bool, secure: bool, sameSite: Option<string>)

  /** `s.split(c).map(x => x.trim())`. */
  function TrimmedFields(s: string, c: char): (r: seq<string>)
    ensures |r| == |Split(s, c)| && |r| >= 1
    ensures forall i :: 0 <= i < |r| ==> r[i] == Trim(Split(s, c)[i])
  {
    var fields := Split(s, c);
    seq(|fields|, i requires 0 <= i < |fields| => Trim(fields[i]))
  }

  /** An attribute after `split('=')`, each piece trimmed and lower-cased: the key and,
    * when there was an `=`, the piece after the first `=`. */
  datatype Attribute = Attribute(key: string, value: Option<string>)

  function AttributeOf(attr: string): Attribute {
    var fields := Split(attr, '=');
    Attribute(ToLower(Trim(fields[0])), if |fields| > 1 then Some(ToLower(Trim(fields[1]))) else None)
  }

  /** Each field read as an attribute. */
  function AttributesOf(fields: seq<string>): (r: seq<Attribute>)
    ensures |r| == |fields|
    ensures forall i :: 0 <= i < |fields| ==> r[i] == AttributeOf(fields[i])
  {
    seq(|fields|, i requires 0 <= i < |fields| => AttributeOf(fields[i]))
  }

  /** The attributes: every `;` field after the first, in order, each trimmed. */
  function Attributes(cookieStr: string): (r: seq<Attribute>)
    ensures |r| == |Split(cookieStr, ';')| - 1
    ensures forall i :: 0 <= i < |r| ==> r[i] == AttributeOf(Trim(Split(cookieStr, ';')[i + 1]))
  {
    AttributesOf(TrimmedFields(cookieStr, ';')[1..])
  }

  /** The expiry an `expires` or `max-age` attribute gives, `None` where the `Date`
    * constructed from it is invalid and `toISOString` throws: `expires` is read as a
    * date, `max-age` as whole seconds from `now`, which must land in the `Date` range. */
  function ExpiryOf(a: Attribute, now: int, parseDate: DateParser): (r: Option<int>)
    ensures a.value.None? ==> r.None?
    ensures a.value.Some? && a.key == "expires" ==> r == parseDate(a.value.value)
    ensures a.value.Some? && a.key != "expires" ==>
      (r.Some? <==> ParseInt(a.value.value).Some? && -MaxTime <= now + ParseInt(a.value.value).value * 1000 <= MaxTime)
    ensures a.value.Some? && a.key != "expires" && r.Some? ==>
      r.value == now + ParseInt(a.value.value).value * 1000 && -MaxTime <= r.value <= MaxTime
  {
    match a.value
    case None => None
    case Some(v) =>
      if a.key == "expires" then parseDate(v)
      else
        match ParseInt(v)
        case None => None
        case Some(n) =>
          var t := now + n * 1000;
          if -MaxTime <= t <= MaxTime then Some(t) else None
  }

  predicate IsExpiryAttribute(a: Attribute) {
    a.key == "expires" || a.key == "max-age"
  }

  /** One round of the `switch` in `parseCookie`; `None` where it throws. */
  function ApplyAttribute(c: ParsedCookie, a: Attribute, now: int, parseDate: DateParser): (r: Option<ParsedCookie>)
    ensures IsExpiryAttribute(a) ==>
      r == (if ExpiryOf(a, now, parseDate).Some? then Some(c.(expires := ExpiryOf(a, now, parseDate))) else None)
    ensures !IsExpiryAttribute(a) ==> r.Some? && r.value.expires == c.expires
    ensures a.key == "domain" ==> r == Some(c.(domain := a.value))
    ensures a.key == "path" ==> r == Some(c.(path := a.value))
    ensures a.key == "samesite" ==> r == Some(c.(sameSite := a.value))
    ensures a.key == "httponly" ==> r == Some(c.(httpOnly := true))
    ensures a.key == "secure" ==> r == Some(c.(secure := true))
    ensures !IsExpiryAttribute(a) && a.key !in {"domain", "path", "samesite", "httponly", "secure"} ==> r == Some(c)
  {
    if a.key == "expires" || a.key == "max-age" then
      match ExpiryOf(a, now, parseDate)
      case None => None
      case Some(t) => Some(c.(expires := Some(t)))
    else if a.key == "domain" then Some(c.(domain := a.value))
    else if a.key == "path" then Some(c.(path := a.value))
    else if a.key == "httponly" then Some(c.(httpOnly := true))
    else if a.key == "secure" then Some(c.(secure := true))
    else if a.key == "samesite" then Some(c.(sameSite := a.value))
    else Some(c)
  }

  /** The attributes applied in order, stopping at the first that throws. */
  function ApplyAttributes(c: ParsedCookie, attrs: seq<Attribute>, now: int, parseDate: DateParser): Option<ParsedCookie> {
    if attrs == [] then Some(c)
    else
      match ApplyAttributes(c, attrs[..|attrs| - 1], now, parseDate)
      case None => None
      case Some(c') => ApplyAttribute(c', attrs[|attrs| - 1], now, parseDate)
  }

  /** The cookie before any attribute: the first `;` field, trimmed, split on `=`; the
    * name is the trimmed text before the first `=`, and there is a value exactly when
    * the field has an `=`: the trimmed text up to the next `=`. Nothing else is set. */
  function NameValue(cookieStr: string): (r: ParsedCookie)
    ensures var first := Trim(Split(cookieStr, ';')[0]);
            && r.name == Trim(Split(first, '=')[0])
            && (r.value.Some? <==> '=' in first)
            && (r.value.Some? ==> r.value.value == Trim(Split(first, '=')[1]))
    ensures r.expires.None? && r.domain.None? && r.path.None? && r.sameSite.None?
    ensures !r.httpOnly && !r.secure
  {
    var nameValue := TrimmedFields(cookieStr, ';')[0];
    var nv := TrimmedFields(nameValue, '=');
    SplitCount(nameValue, '=');
    ParsedCookie(nv[0], if |nv| > 1 then Some(nv[1]) else None, None, None, None, false, false, None)
  }

  /** An attribute that makes `parseCookie` throw: an expiry whose `Date` is invalid. */
  predicate Throws(a: Attribute, now: int, parseDate: DateParser) {
    IsExpiryAttribute(a) && ExpiryOf(a, now, parseDate).None?
  }

  /** `parseCookie` as a value: `None` (it throws) exactly when some attribute gives an
    * invalid expiry; otherwise the name and value are those of the first field. */
  function ParsedOf(cookieStr: string, now: int, parseDate: DateParser): (r: Option<ParsedCookie>)
    ensures r.None? <==>
      exists i :: 0 <= i < |Attributes(cookieStr)| && Throws(Attributes(cookieStr)[i], now, parseDate)
    ensures r.Some? ==> r.value.name == NameValue(cookieStr).name && r.value.value == NameValue(cookieStr).value
  {
    ApplyThrows(NameValue(cookieStr), Attributes(cookieStr), now, parseDate);
    ApplyAttributes(NameValue(cookieStr), Attributes(cookieStr), now, parseDate)
  }

  /** Applying attributes throws exactly when one of them does, and never touches the
    * name or the value. */
  lemma {:induction false} ApplyThrows(c: ParsedCookie, attrs: seq<Attribute>, now: int, parseDate: DateParser)
    ensures ApplyAttributes(c, attrs, now, parseDate).None? <==>
            exists i :: 0 <= i < |attrs| && Throws(attrs[i], now, parseDate)
    ensures ApplyAttributes(c, attrs, now, parseDate).Some? ==>
            ApplyAttributes(c, attrs, now, parseDate).value.name == c.name
            && ApplyAttributes(c, attrs, now, parseDate).value.value == c.value
    decreases |attrs|
  {
    if attrs != [] {
      var n := |attrs| - 1;
      var init := attrs[..n];
      ApplyThrows(c, init, now, parseDate);
      assert forall i :: 0 <= i < n ==> init[i] == attrs[i];
      if exists i :: 0 <= i < n && Throws(init[i], now, parseDate) {
        var i :| 0 <= i < n && Throws(init[i], now, parseDate);
        assert Throws(attrs[i], now, parseDate);
      } else {
        ThrowsOne(ApplyAttributes(c, init, now, parseDate).value, attrs[n], now, parseDate);
      }
    }
  }

  /** One attribute throws exactly when it is an expiry without a valid date, and keeps
    * the name and the value otherwise. */
  lemma ThrowsOne(c: ParsedCookie, a: Attribute, now: int, parseDate: DateParser)
    ensures ApplyAttribute(c, a, now, parseDate).None? <==> Throws(a, now, parseDate)
    ensures ApplyAttribute(c, a, now, parseDate).Some? ==>
            ApplyAttribute(c, a, now, parseDate).value.name == c.name
            && ApplyAttribute(c, a, now, parseDate).value.value == c.value
  {
  }

  /** Applying one more attribute. */
  lemma ApplySnoc(c: ParsedCookie, attrs: seq<Attribute>, i: nat, now: int, parseDate: DateParser)
    requires i < |attrs|
    ensures ApplyAttributes(c, attrs[..i + 1], now, parseDate) ==
            match ApplyAttributes(c, attrs[..i], now, parseDate)
            case None => None
            case Some(c') => ApplyAttribute(c', attrs[i], now, parseDate)
  {
    assert attrs[..i + 1][..i] == attrs[..i];
  }

  /** `CookieStore.parseCookie`: the name-value pair, then the attribute loop. */
  method ParseCookie(cookieStr: string, now: int, parseDate: DateParser) returns (r: Option<ParsedCookie>)
    ensures r == ParsedOf(cookieStr, now, parseDate)
  {
    r := RunAttributes(NameValue(cookieStr), Attributes(cookieStr), now, parseDate);
  }

  /** The attribute loop of `parseCookie`, returning early where an attribute throws. */
  method RunAttributes(init: ParsedCookie, attrs: seq<Attribute>, now: int, parseDate: DateParser)
    returns (r: Option<ParsedCookie>)
    ensures r == ApplyAttributes(init, attrs, now, parseDate)
  {
    var cookie := init;
    for i := 0 to |attrs|
      invariant ApplyAttributes(init, attrs[..i], now, parseDate) == Some(cookie)
    {
      ApplySnoc(init, attrs, i, now, parseDate);
      var next := ApplyAttribute(cookie, attrs[i], now, parseDate);
      if next.None? {
        NoneStaysNone(init, attrs, i + 1, now, parseDate);
        return None;
      }
      cookie := next.value;
    }
    assert attrs[..|attrs|] == attrs;
    return Some(cookie);
  }

  /** Once an attribute throws, the whole parse throws. */
  lemma {:induction false} NoneStaysNone(c: ParsedCookie, attrs: seq<Attribute>, i: nat, now: int,
                                         parseDate: DateParser)
    requires i <= |attrs|
    requires ApplyAttributes(c, attrs[..i], now, parseDate).None?
    ensures ApplyAttributes(c, attrs, now, parseDate).None?
    decreases |attrs| - i
  {
    if i < |attrs| {
      assert attrs[..i + 1][..i] == attrs[..i];
      NoneStaysNone(c, attrs, i + 1, now, parseDate);
    } else {
      assert attrs[..i] == attrs;
    }
  }

  /** The last `expires` or `max-age` attribute decides the expiry, whichever kind it is
    * (section 5.3 of RFC 6265 gives `Max-Age` precedence instead). */
  lemma {:induction false} LastExpiryWins(c: ParsedCookie, attrs: seq<Attribute>, i: nat, now: int,
                                          parseDate: DateParser)
    requires i < |attrs| && IsExpiryAttribute(attrs[i])
    requires forall j :: i < j < |attrs| ==> !IsExpiryAttribute(attrs[j])
    requires ApplyAttributes(c, attrs, now, parseDate).Some?
    ensures ApplyAttributes(c, attrs, now, parseDate).value.expires == ExpiryOf(attrs[i], now, parseDate)
    decreases |attrs|
  {
    var n := |attrs| - 1;
    LastStep(c, attrs, now, parseDate);
    if i < n {
      assert !IsExpiryAttribute(attrs[n]);
      assert attrs[..n][i] == attrs[i];
      LastExpiryWins(c, attrs[..n], i, now, parseDate);
    }
  }

  /** A run of attributes that does not throw is its prefix followed by its last attribute. */
  lemma LastStep(c: ParsedCookie, attrs: seq<Attribute>, now: int, parseDate: DateParser)
    requires |attrs| > 0
    requires ApplyAttributes(c, attrs, now, parseDate).Some?
    ensures ApplyAttributes(c, attrs[..|attrs| - 1], now, parseDate).Some?
    ensures ApplyAttributes(c, attrs, now, parseDate) ==
            ApplyAttribute(ApplyAttributes(c, attrs[..|attrs| - 1], now, parseDate).value, attrs[|attrs| - 1], now, parseDate)
  {
  }

  /** The value of the last attribute with key `key`, or `dflt` when there is none. */
  function LastValue(attrs: seq<Attribute>, key: string, dflt: Option<string>): Option<string> {
    if attrs == [] then dflt
    else if attrs[|attrs| - 1].key == key then attrs[|attrs| - 1].value
    else LastValue(attrs[..|attrs| - 1], key, dflt)
  }

  /** Some attribute has key `key`. */
  predicate HasKey(attrs: seq<Attribute>, key: string) {
    exists i :: 0 <= i < |attrs| && attrs[i].key == key
  }

  /** The other fields after the attribute run: `domain`, `path` and `sameSite` are the
    * value of the last attribute of that name, and the `httpOnly` and `secure` flags are
    * raised exactly when such an attribute occurs. */
  lemma {:induction false} ApplyFields(c: ParsedCookie, attrs: seq<Attribute>, now: int, parseDate: DateParser)
    requires ApplyAttributes(c, attrs, now, parseDate).Some?
    ensures var r := ApplyAttributes(c, attrs, now, parseDate).value;
            && r.domain == LastValue(attrs, "domain", c.domain)
            && r.path == LastValue(attrs, "path", c.path)
            && r.sameSite == LastValue(attrs, "samesite", c.sameSite)
            && (r.httpOnly <==> c.httpOnly || HasKey(attrs, "httponly"))
            && (r.secure <==> c.secure || HasKey(attrs, "secure"))
    decreases |attrs|
  {
    if attrs != [] {
      var n := |attrs| - 1;
      var init := attrs[..n];
      LastStep(c, attrs, now, parseDate);
      ApplyFields(c, init, now, parseDate);
      HasKeySnoc(attrs, "httponly");
      HasKeySnoc(attrs, "secure");
    }
  }

  lemma HasKeySnoc(attrs: seq<Attribute>, key: string)
    requires attrs != []
    ensures HasKey(attrs, key) <==> HasKey(attrs[..|attrs| - 1], key) || attrs[|attrs| - 1].key == key
  {
    var n := |attrs| - 1;
    if HasKey(attrs, key) && attrs[n].key != key {
      var i :| 0 <= i < |attrs| && attrs[i].key == key;
      assert attrs[..n][i] == attrs[i];
    }
    if HasKey(attrs[..n], key) {
      var i :| 0 <= i < n && attrs[..n][i].key == key;
      assert attrs[i] == attrs[..n][i];
    }
  }

  /** A parsed cookie's `domain`, `path` and `sameSite` come from the last attribute of that
    * name, and `httpOnly` and `secure` hold exactly when the attribute is present. */
  lemma ParsedFields(cookieStr: string, now: int, parseDate: DateParser)
    requires ParsedOf(cookieStr, now, parseDate).Some?
    ensures var r := ParsedOf(cookieStr, now, parseDate).value;
            var attrs := Attributes(cookieStr);
            && r.domain == LastValue(attrs, "domain", None)
            && r.path == LastValue(attrs, "path", None)
            && r.sameSite == LastValue(attrs, "samesite", None)
            && (r.httpOnly <==> HasKey(attrs, "httponly"))
            && (r.secure <==> HasKey(attrs, "secure"))
  {
    ApplyFields(NameValue(cookieStr), Attributes(cookieStr), now, parseDate);
  }

  /** Without any expiry attribute the cookie is a session cookie. */
  lemma {:induction false} NoExpiryAttribute(c: ParsedCookie, attrs: seq<Attribute>, now: int, parseDate: DateParser)
    requires forall j :: 0 <= j < |attrs| ==> !IsExpiryAttribute(attrs[j])
    ensures ApplyAttributes(c, attrs, now, parseDate).Some?
    ensures ApplyAttributes(c, attrs, now, parseDate).value.expires == c.expires
  {
    if attrs != [] {
      var n := |attrs| - 1;
      NoExpiryAttribute(c, attrs[..n], now, parseDate);
      ApplySnoc(c, attrs, n, now, parseDate);
      assert attrs[..n + 1] == attrs;
    }
  }

  lemma SplitTwo(a: string, b: string, c: char)
    requires c !in a && c !in b
    ensures Split(a + [c] + b, c) == [a, b]
  {
    assert Join([a, b], [c]) == a + [c] + b;
    SplitJoin([a, b], c);
  }

  lemma SplitThree(a: string, b: string, d: string, c: char)
    requires c !in a && c !in b && c !in d
    ensures Split(a + [c] + b + [c] + d, c) == [a, b, d]
  {
    assert Join([b, d], [c]) == b + [c] + d;
    assert Join([a, b, d], [c]) == a + [c] + b + [c] + d;
    SplitJoin([a, b, d], c);
  }

  /** Trimming changes no field that has no whitespace. */
  lemma TrimmedUnchanged(s: string, c: char)
    requires forall i :: 0 <= i < |Split(s, c)| ==> NoSpace(Split(s, c)[i])
    ensures TrimmedFields(s, c) == Split(s, c)
  {
    var f := Split(s, c);
    forall i | 0 <= i < |f| ensures Trim(f[i]) == f[i] {
      TrimNoOp(f[i]);
    }
  }

  lemma SecondEqualsSplit()
    ensures TrimmedFields("a=b=c", '=') == ["a", "b", "c"]
  {
    assert "a=b=c" == "a" + ['='] + "b" + ['='] + "c";
    SplitThree("a", "b", "c", '=');
    TrimmedUnchanged("a=b=c", '=');
  }

  /** `a=b=c` names cookie `a` with value `b`; the rest after the second `=` is lost. */
  lemma ValueStopsAtSecondEquals(now: int, parseDate: DateParser)
    ensures ParsedOf("a=b=c", now, parseDate) ==
            Some(ParsedCookie("a", Some("b"), None, None, None, false, false, None))
  {
    SplitFirstNoSep("a=b=c", ';');
    TrimmedUnchanged("a=b=c", ';');
    SecondEqualsSplit();
    assert Attributes("a=b=c") == [];
  }

  /** A plain `name=value` header with nothing to trim parses to that name and value. */
  lemma ParseSimple(n: string, v: string, now: int, parseDate: DateParser)
    requires ';' !in n && ';' !in v && '=' !in n && '=' !in v && NoSpace(n) && NoSpace(v)
    ensures ParsedOf(n + "=" + v, now, parseDate) ==
            Some(ParsedCookie(n, Some(v), None, None, None, false, false, None))
  {
    var s := n + "=" + v;
    NoAttributes(n, v);
    PlainNameValue(n, v);
    assert ParsedOf(s, now, parseDate) == ApplyAttributes(NameValue(s), [], now, parseDate);
  }

  /** A header with no `;` has no attributes. */
  lemma NoAttributes(n: string, v: string)
    requires ';' !in n && ';' !in v
    ensures Attributes(n + "=" + v) == []
  {
    var s := n + "=" + v;
    assert s == n + ['='] + v;
    SplitFirstNoSep(s, ';');
  }

  lemma NoSpaceAround(n: string, v: string)
    requires NoSpace(n) && NoSpace(v)
    ensures NoSpace(n + "=" + v)
  {
    var s := n + "=" + v;
    forall i | 0 <= i < |s| ensures !IsSpace(s[i]) {
      if i < |n| { assert s[i] == n[i]; }
      else if i > |n| { assert s[i] == v[i - |n| - 1]; }
    }
  }

  /** The name and value of `n=v` with nothing to trim. */
  lemma PlainNameValue(n: string, v: string)
    requires ';' !in n && ';' !in v && '=' !in n && '=' !in v && NoSpace(n) && NoSpace(v)
    ensures NameValue(n + "=" + v) == ParsedCookie(n, Some(v), None, None, None, false, false, None)
  {
    var s := n + "=" + v;
    assert s == n + ['='] + v;
    assert ';' !in s;
    SplitFirstNoSep(s, ';');
    NoSpaceAround(n, v);
    TrimmedUnchanged(s, ';');
    SplitTwo(n, v, '=');
    TrimmedUnchanged(s, '=');
  }

  // ----------------------------------------------------------------- CookieStore

  /** A cookie as `storeCookies` keeps it, under its name. */
  datatype Cookie = Cookie(value: Option<string>, domain: string, path: string, expires: Option<int>,
                           httpOnly: bool, secure: bool, sameSite: Option<string>)

  /** The nested `Map`s: session id to domain to cookie name. */
  type DomainJar = seq<Entry<Cookie>>
  type SessionJar = seq<Entry<DomainJar>>
  type CookieJar = seq<Entry<SessionJar>>

  /** No map at any level has a key twice. */
  ghost predicate JarValid(jar: CookieJar) {
    && Distinct(jar)
    && forall e :: e in jar ==> SessionValid(e.value)
  }

  ghost predicate SessionValid(sj: SessionJar) {
    && Distinct(sj)
    && forall d :: d in sj ==> Distinct(d.value)
  }

  /** `x || fallback` on a string attribute: `undefined` and `""` are falsy. */
  function OrElse(x: Option<string>, fallback: string): string {
    if x.Some? && x.value != "" then x.value else fallback
  }

  /** The record `storeCookies` keeps for a parsed header. */
  function StoredOf(p: ParsedCookie, domain: string): Cookie {
    Cookie(p.value, OrElse(p.domain, domain), OrElse(p.path, "/"), p.expires, p.httpOnly, p.secure, p.sameSite)
  }

  /** One round of `storeCookies`' loop; `None` where `parseCookie` throws. */
  function StoreOne(dj: DomainJar, cookieStr: string, domain: string, parse: CookieParser): (r: Option<DomainJar>)
    ensures cookieStr == "" ==> r == Some(dj)
    ensures cookieStr != "" && parse(cookieStr).None? ==> r.None?
    ensures cookieStr != "" && parse(cookieStr).Some? ==>
      var p := parse(cookieStr).value;
      && r.Some?
      && (p.name == "" ==> r.value == dj)
      && (p.name != "" ==> Get(r.value, p.name) == Some(StoredOf(p, domain)))
      && (forall n :: n != p.name ==> Get(r.value, n) == Get(dj, n))
  {
    if cookieStr == "" then Some(dj)
    else
      match parse(cookieStr)
      case None => None
      case Some(p) => if p.name == "" then Some(dj) else Some(Set(dj, p.name, StoredOf(p, domain)))
  }

  /** The parse `storeCookies` applies to each header. */
  type CookieParser = string -> Option<ParsedCookie>

  function ParserAt(now: int, parseDate: DateParser): CookieParser {
    s => ParsedOf(s, now, parseDate)
  }

  /** Where `storeCookies`' loop ends: the jar reached, and whether every header was read
    * (`false`: `parseCookie` threw, leaving the headers before it stored). */
  datatype StoreOutcome = StoreOutcome(jar: DomainJar, complete: bool)

  function StoreAll(dj: DomainJar, headers: seq<string>, domain: string, parse: CookieParser): StoreOutcome {
    if headers == [] then StoreOutcome(dj, true)
    else
      var r := StoreAll(dj, headers[..|headers| - 1], domain, parse);
      if !r.complete then r
      else
        match StoreOne(r.jar, headers[|headers| - 1], domain, parse)
        case None => StoreOutcome(r.jar, false)
        case Some(d) => StoreOutcome(d, true)
  }

  lemma StoreSnoc(dj: DomainJar, headers: seq<string>, i: nat, domain: string, parse: CookieParser)
    requires i < |headers|
    ensures StoreAll(dj, headers[..i + 1], domain, parse) ==
            var r := StoreAll(dj, headers[..i], domain, parse);
            if !r.complete then r
            else
              match StoreOne(r.jar, headers[i], domain, parse)
              case None => StoreOutcome(r.jar, false)
              case Some(d) => StoreOutcome(d, true)
  {
    assert headers[..i + 1][..i] == headers[..i];
  }

  /** Once a header throws, the headers after it are not read. */
  lemma {:induction false} IncompleteStays(dj: DomainJar, headers: seq<string>, i: nat, domain: string, parse: CookieParser)
    requires i <= |headers|
    requires !StoreAll(dj, headers[..i], domain, parse).complete
    ensures StoreAll(dj, headers, domain, parse) == StoreAll(dj, headers[..i], domain, parse)
    decreases |headers| - i
  {
    if i < |headers| {
      StoreSnoc(dj, headers, i, domain, parse);
      IncompleteStays(dj, headers, i + 1, domain, parse);
    } else {
      assert headers[..i] == headers;
    }
  }

  lemma {:induction false} StoreAllDistinct(dj: DomainJar, headers: seq<string>, domain: string, parse: CookieParser)
    requires Distinct(dj)
    ensures Distinct(StoreAll(dj, headers, domain, parse).jar)
  {
    if headers != [] {
      var init := headers[..|headers| - 1];
      StoreAllDistinct(dj, init, domain, parse);
      var r := StoreAll(dj, init, domain, parse);
      var last := headers[|headers| - 1];
      if r.complete && last != "" {
        match parse(last)
        case None =>
        case Some(p) =>
          if p.name != "" { SetDistinct(r.jar, p.name, StoredOf(p, domain)); }
      }
    }
  }

  /** The `Set-Cookie` header as Node gives it: one string, or an array of them. */
  datatype SetCookie = One(header: string) | Many(headers: seq<string>)

  /** `if (!Array.isArray(h)) h = [h]`. */
  function HeaderList(h: SetCookie): seq<string> {
    match h
    case One(s) => [s]
    case Many(hs) => hs
  }

  function SessionOf(jar: CookieJar, sessionId: string): SessionJar {
    Get(jar, sessionId).GetOr([])
  }

  function DomainOf(sj: SessionJar, domain: string): DomainJar {
    Get(sj, domain).GetOr([])
  }

  /** `storeCookies` as a value: the new jar, and whether it returned without throwing. */
  function StoreCookiesSpec(jar: CookieJar, sessionId: string, domain: string, h: SetCookie,
                            parse: CookieParser): (r: (CookieJar, bool))
    ensures Get(r.0, sessionId).Some?
    ensures forall s' :: s' != sessionId ==> Get(r.0, s') == Get(jar, s')
    ensures forall d :: d != domain ==> Get(Get(r.0, sessionId).value, d) == Get(SessionOf(jar, sessionId), d)
  {
    var sj := SessionOf(jar, sessionId);
    var out := StoreAll(DomainOf(sj, domain), HeaderList(h), domain, parse);
    (Set(jar, sessionId, Set(sj, domain, out.jar)), out.complete)
  }

  /** A cookie name `storeCookies` reads from a header it does not throw on. */
  lemma StoresUnderName(jar: CookieJar, sessionId: string, domain: string, header: string, parse: CookieParser)
    requires header != "" && parse(header).Some? && parse(header).value.name != ""
    ensures var p := parse(header).value;
            var r := StoreCookiesSpec(jar, sessionId, domain, One(header), parse);
            && r.1
            && DomainOf(SessionOf(r.0, sessionId), domain) == Set(DomainOf(SessionOf(jar, sessionId), domain), p.name, StoredOf(p, domain))
  {
    var p := parse(header).value;
    var sj := SessionOf(jar, sessionId);
    var dj := DomainOf(sj, domain);
    assert [header][..0] == [];
    var out := StoreAll(dj, [header], domain, parse);
    assert StoreAll(dj, [], domain, parse) == StoreOutcome(dj, true);
    assert StoreOne(dj, header, domain, parse) == Some(Set(dj, p.name, StoredOf(p, domain)));
    assert out == StoreOutcome(Set(dj, p.name, StoredOf(p, domain)), true);
    var r := StoreCookiesSpec(jar, sessionId, domain, One(header), parse);
    assert r.0 == Set(jar, sessionId, Set(sj, domain, out.jar));
    assert SessionOf(r.0, sessionId) == Set(sj, domain, out.jar);
  }

  /** A later header with the same name overwrites the earlier one. */
  lemma LaterOverwrites(dj: DomainJar, h1: string, h2: string, domain: string, parse: CookieParser)
    requires h1 != "" && h2 != ""
    requires parse(h1).Some? && parse(h2).Some?
    requires parse(h1).value.name == parse(h2).value.name != ""
    ensures var p := parse(h2).value;
            var r := StoreAll(dj, [h1, h2], domain, parse);
            r.complete && Get(r.jar, p.name) == Some(StoredOf(p, domain))
  {
    var p1 := parse(h1).value;
    var p := parse(h2).value;
    assert [h1, h2][..1] == [h1];
    assert [h1][..0] == [];
    var d1 := Set(dj, p1.name, StoredOf(p1, domain));
    assert StoreAll(dj, [], domain, parse) == StoreOutcome(dj, true);
    assert StoreAll(dj, [h1], domain, parse) == StoreOutcome(d1, true);
    assert StoreOne(d1, h2, domain, parse) == Some(Set(d1, p.name, StoredOf(p, domain)));
  }

  /** `new Date(cookie.expires) < now`: a cookie without an expiry never expires. */
  predicate Expired(c: Cookie, now: int) {
    c.expires.Some? && c.expires.value < now
  }

  function Unexpired(now: int): Cookie -> bool {
    c => !Expired(c, now)
  }

  /** The domain's cookies `getCookies` keeps. */
  function Live(dj: DomainJar, now: int): DomainJar {
    Filter(dj, Unexpired(now))
  }

  /** `${name}=${cookie.value}`; an absent value prints as `undefined`. */
  function CookiePair(e: Entry<Cookie>): string {
    e.key + "=" + match e.value.value case None => "undefined" case Some(v) => v
  }

  function Pairs(dj: DomainJar): (r: seq<string>)
    ensures |r| == |dj|
    ensures forall i :: 0 <= i < |dj| ==> r[i] == CookiePair(dj[i])
  {
    seq(|dj|, i requires 0 <= i < |dj| => CookiePair(dj[i]))
  }

  /** `getCookies` as a value: the `Cookie` header and the jar after its evictions. */
  function GetCookiesSpec(jar: CookieJar, sessionId: string, domain: string, now: int): (r: (string, CookieJar))
    ensures !Has(jar, sessionId) ==> r == ("", jar)
    ensures Has(jar, sessionId) && !Has(Get(jar, sessionId).value, domain) ==> r == ("", jar)
    ensures forall s' :: s' != sessionId ==> Get(r.1, s') == Get(jar, s')
  {
    match Get(jar, sessionId)
    case None => ("", jar)
    case Some(sj) =>
      match Get(sj, domain)
      case None => ("", jar)
      case Some(dj) =>
        var kept := Live(dj, now);
        (Join(Pairs(kept), "; "), Set(jar, sessionId, Set(sj, domain, kept)))
  }

  /** After `getCookies` a name keeps its cookie exactly when the cookie has not expired. */
  lemma LiveExactly(dj: DomainJar, now: int, name: string)
    requires Distinct(dj)
    ensures Get(Live(dj, now), name) ==
            if Get(dj, name).Some? && !Expired(Get(dj, name).value, now) then Get(dj, name) else None
  {
    FilterGet(dj, Unexpired(now), name);
  }

  /** Every pair in the header belongs to an unexpired cookie of the jar. */
  lemma HeaderOnlyLive(dj: DomainJar, now: int, i: nat)
    requires i < |Pairs(Live(dj, now))|
    ensures exists e :: e in dj && !Expired(e.value, now) && Pairs(Live(dj, now))[i] == CookiePair(e)
  {
    var kept := Live(dj, now);
    assert kept[i] in dj && Unexpired(now)(kept[i].value);
  }

  /** A session cookie stored into an empty domain entry is what `getCookies` sends back. */
  lemma StoreThenGet(jar: CookieJar, sessionId: string, domain: string, header: string, parse: CookieParser,
                     later: int)
    requires header != "" && parse(header).Some? && parse(header).value.name != ""
    requires parse(header).value.expires.None?
    requires !Has(SessionOf(jar, sessionId), domain)
    ensures var p := parse(header).value;
            var stored := StoreCookiesSpec(jar, sessionId, domain, One(header), parse);
            stored.1 && GetCookiesSpec(stored.0, sessionId, domain, later).0 == CookiePair(Entry(p.name, StoredOf(p, domain)))
  {
    var p := parse(header).value;
    StoresUnderName(jar, sessionId, domain, header, parse);
    var sj := SessionOf(jar, sessionId);
    assert DomainOf(sj, domain) == [];
    var dj := [Entry(p.name, StoredOf(p, domain))];
    var stored := StoreCookiesSpec(jar, sessionId, domain, One(header), parse);
    var sj' := SessionOf(stored.0, sessionId);
    assert Get(stored.0, sessionId) == Some(sj');
    assert Get(sj', domain) == Some(dj);
    assert Live(dj, later) == dj by {
      assert dj[1..] == [];
    }
    assert Pairs(dj) == [CookiePair(dj[0])];
  }

  /** A cookie stored from `n=v` is sent back as `n=v`. */
  lemma StoreThenGetPlain(jar: CookieJar, sessionId: string, domain: string, n: string, v: string, now: int,
                          later: int, parseDate: DateParser)
    requires n != "" && ';' !in n && ';' !in v && '=' !in n && '=' !in v && NoSpace(n) && NoSpace(v)
    requires !Has(SessionOf(jar, sessionId), domain)
    ensures var stored := StoreCookiesSpec(jar, sessionId, domain, One(n + "=" + v), ParserAt(now, parseDate));
            stored.1 && GetCookiesSpec(stored.0, sessionId, domain, later).0 == n + "=" + v
  {
    ParseSimple(n, v, now, parseDate);
    StoreThenGet(jar, sessionId, domain, n + "=" + v, ParserAt(now, parseDate), later);
  }

  /** `Max-Age=0` sets the expiry to the current instant, and since only an expiry before
    * `now` counts as expired, a read at that same instant still sends the cookie. */
  lemma MaxAgeZeroStillSent(c: ParsedCookie, now: int, parseDate: DateParser)
    requires -MaxTime <= now <= MaxTime
    ensures ApplyAttribute(c, Attribute("max-age", Some("0")), now, parseDate) == Some(c.(expires := Some(now)))
    ensures !Expired(StoredOf(c.(expires := Some(now)), ""), now)
    ensures Expired(StoredOf(c.(expires := Some(now)), ""), now + 1)
  {
    MaxAgeZeroExpiry(now, parseDate);
  }

  lemma MaxAgeZeroExpiry(now: int, parseDate: DateParser)
    requires -MaxTime <= now <= MaxTime
    ensures ExpiryOf(Attribute("max-age", Some("0")), now, parseDate) == Some(now)
  {
    ParseZero();
    var a := Attribute("max-age", Some("0"));
    assert a.key != "expires" && a.value == Some("0");
  }

  lemma ParseZero()
    ensures ParseInt("0") == Some(0)
  {
    ParseDecimal(0, "");
    assert NatToString(0) + "" == "0";
  }

  lemma SessionOfValid(jar: CookieJar, sessionId: string)
    requires JarValid(jar)
    ensures SessionValid(SessionOf(jar, sessionId))
  {
  }

  lemma DomainOfValid(sj: SessionJar, domain: string)
    requires SessionValid(sj)
    ensures Distinct(DomainOf(sj, domain))
  {
  }

  lemma SetSessionValid(sj: SessionJar, domain: string, dj: DomainJar)
    requires SessionValid(sj) && Distinct(dj)
    ensures SessionValid(Set(sj, domain, dj))
  {
    SetDistinct(sj, domain, dj);
    SetEntries(sj, domain, dj);
    var r := Set(sj, domain, dj);
    forall d | d in r ensures Distinct(d.value) {
      var i :| 0 <= i < |r| && r[i] == d;
    }
  }

  lemma SetJarValid(jar: CookieJar, sessionId: string, sj: SessionJar)
    requires JarValid(jar) && SessionValid(sj)
    ensures JarValid(Set(jar, sessionId, sj))
  {
    SetDistinct(jar, sessionId, sj);
    SetEntries(jar, sessionId, sj);
    var r := Set(jar, sessionId, sj);
    forall e | e in r ensures SessionValid(e.value) {
      var i :| 0 <= i < |r| && r[i] == e;
    }
  }

  /** `getStats().totalCookies`: the domain entries' sizes summed over every session. */
  function SessionCookieCount(sj: SessionJar): nat {
    if sj == [] then 0 else SessionCookieCount(sj[..|sj| - 1]) + |sj[|sj| - 1].value|
  }

  function TotalCookies(jar: CookieJar): nat {
    if jar == [] then 0 else TotalCookies(jar[..|jar| - 1]) + SessionCookieCount(jar[|jar| - 1].value)
  }

  /** The loop of `getCookies` over one domain's cookies: the unexpired ones, in order,
    * and their `name=value` strings. */
  method LiveCookies(dj: DomainJar, now: int) returns (kept: DomainJar, cookieStrings: seq<string>)
    ensures kept == Live(dj, now)
    ensures cookieStrings == Pairs(kept)
  {
    kept := [];
    cookieStrings := [];
    for i := 0 to |dj|
      invariant kept == Live(dj[..i], now)
      invariant cookieStrings == Pairs(kept)
    {
      assert dj[..i + 1] == dj[..i] + [dj[i]];
      FilterAppend(dj[..i], [dj[i]], Unexpired(now));
      assert [dj[i]][1..] == [];
      if !Expired(dj[i].value, now) {
        kept := kept + [dj[i]];
        cookieStrings := cookieStrings + [CookiePair(dj[i])];
      }
    }
    assert dj[..|dj|] == dj;
  }

  /** The `for (const cookieStr of setCookieHeaders)` loop of `storeCookies` on one domain's
    * cookies: the jar it leaves, and `false` where `parseCookie` threw and ended it. */
  method StoreHeaders(dj0: DomainJar, headers: seq<string>, domain: string, now: int, parseDate: DateParser)
    returns (domainCookies: DomainJar, completed: bool)
    requires Distinct(dj0)
    ensures Distinct(domainCookies)
    ensures StoreOutcome(domainCookies, completed) == StoreAll(dj0, headers, domain, ParserAt(now, parseDate))
  {
    ghost var parse := ParserAt(now, parseDate);
    domainCookies := dj0;
    completed := true;
    var i := 0;
    while i < |headers|
      invariant i <= |headers|
      invariant Distinct(domainCookies)
      invariant StoreAll(dj0, headers[..i], domain, parse) == StoreOutcome(domainCookies, completed)
      invariant completed || StoreAll(dj0, headers, domain, parse) == StoreOutcome(domainCookies, completed)
    {
      StoreSnoc(dj0, headers, i, domain, parse);
      var cookieStr := headers[i];
      if cookieStr != "" {
        var parsed := ParseCookie(cookieStr, now, parseDate);
        assert parse(cookieStr) == parsed;
        if parsed.None? {
          completed := false;
          IncompleteStays(dj0, headers, i + 1, domain, parse);
          break;
        }
        if parsed.value.name != "" {
          SetDistinct(domainCookies, parsed.value.name, StoredOf(parsed.value, domain));
          domainCookies := Set(domainCookies, parsed.value.name, StoredOf(parsed.value, domain));
        }
      }
      i := i + 1;
    }
    if completed {
      assert headers[..i] == headers;
    }
  }

  /** `class CookieStore`: the jar behind every proxied session. */
  class CookieStore {
    var cookies: CookieJar

    ghost predicate Valid()
      reads this
    {
      JarValid(cookies)
    }

    constructor()
      ensures cookies == [] && Valid()
    {
      cookies := [];
    }

    /** `storeCookies(sessionId, domain, setCookieHeaders)`; `false` where `parseCookie`
      * threw, with the headers before it already stored. */
    method StoreCookies(sessionId: string, domain: string, setCookieHeaders: SetCookie, now: int,
                        parseDate: DateParser) returns (completed: bool)
      requires Valid()
      modifies this
      ensures Valid()
      ensures (cookies, completed) == StoreCookiesSpec(old(cookies), sessionId, domain, setCookieHeaders, ParserAt(now, parseDate))
    {
      var sessionCookies := SessionOf(cookies, sessionId);
      var domainCookies := DomainOf(sessionCookies, domain);
      SessionOfValid(cookies, sessionId);
      DomainOfValid(sessionCookies, domain);
      domainCookies, completed := StoreHeaders(domainCookies, HeaderList(setCookieHeaders), domain, now, parseDate);
      SetSessionValid(sessionCookies, domain, domainCookies);
      SetJarValid(cookies, sessionId, Set(sessionCookies, domain, domainCookies));
      cookies := Set(cookies, sessionId, Set(sessionCookies, domain, domainCookies));
    }

    /** `getCookies(sessionId, domain)`: evicts the expired cookies of that domain and
      * joins the rest as `name=value` in insertion order. */
    method GetCookies(sessionId: string, domain: string, now: int) returns (header: string)
      requires Valid()
      modifies this
      ensures Valid()
      ensures (header, cookies) == GetCookiesSpec(old(cookies), sessionId, domain, now)
    {
      var sessionCookies := OrderedMap.Get(cookies, sessionId);
      if sessionCookies.None? {
        return "";
      }
      var domainCookies := OrderedMap.Get(sessionCookies.value, domain);
      if domainCookies.None? {
        return "";
      }
      var dj := domainCookies.value;
      var kept, cookieStrings := LiveCookies(dj, now);
      SessionOfValid(cookies, sessionId);
      FilterDistinct(dj, Unexpired(now));
      SetSessionValid(sessionCookies.value, domain, kept);
      SetJarValid(cookies, sessionId, Set(sessionCookies.value, domain, kept));
      cookies := Set(cookies, sessionId, Set(sessionCookies.value, domain, kept));
      header := Join(cookieStrings, "; ");
    }

    /** `clearSession(sessionId)`. */
    method ClearSession(sessionId: string)
      requires Valid()
      modifies this
      ensures Valid()
      ensures cookies == Delete(old(cookies), sessionId)
    {
      DeleteDistinct(cookies, sessionId);
      cookies := Delete(cookies, sessionId);
    }

    /** `getStats()`: the number of sessions and of cookies over all of them. */
    method GetStats() returns (sessions: nat, totalCookies: nat)
      requires Valid()
      ensures sessions == |cookies|
      ensures totalCookies == TotalCookies(cookies)
    {
      totalCookies := 0;
      for i := 0 to |cookies|
        invariant totalCookies == TotalCookies(cookies[..i])
      {
        var sj := cookies[i].value;
        var inSession := 0;
        for j := 0 to |sj|
          invariant inSession == SessionCookieCount(sj[..j])
        {
          assert sj[..j + 1][..j] == sj[..j];
          inSession := inSession + |sj[j].value|;
        }
        assert sj[..|sj|] == sj;
        assert cookies[..i + 1][..i] == cookies[..i];
        totalCookies := totalCookies + inSession;
      }
      assert cookies[..|cookies|] == cookies;
      sessions := |cookies|;
    }
  }

  // ----------------------------------------------------------------- MemorySessionStore

  /** A stored session: its data spread into a copy together with its expiry. */
  datatype StoredSession<T> = StoredSession(data: T, expires: int)

  function StillValid<T>(now: int): StoredSession<T> -> bool {
    (s: StoredSession<T>) => s.expires > now
  }

  /** `cleanup` keeps exactly the sessions whose expiry is after `now`. */
  lemma CleanupExact<T>(sessions: seq<Entry<StoredSession<T>>>, now: int, sid: string)
    requires Distinct(sessions)
    ensures Get(Filter(sessions, StillValid(now)), sid) ==
            if Get(sessions, sid).Some? && Get(sessions, sid).value.expires > now then Get(sessions, sid) else None
  {
    FilterGet(sessions, StillValid(now), sid);
  }

  /** `class MemorySessionStore`; `maxAge` is `config.sessionMaxAge`. */
  class MemorySessionStore<T> {
    var sessions: seq<Entry<StoredSession<T>>>
    const maxAge: int

    ghost predicate Valid()
      reads this
    {
      Distinct(sessions)
    }

    constructor(maxAge: int)
      ensures sessions == [] && this.maxAge == maxAge && Valid()
    {
      sessions := [];
      this.maxAge := maxAge;
    }

    /** `get(sid)`: the session while it has not expired; an expired one is deleted. */
    method Get(sid: string, now: int) returns (r: Option<StoredSession<T>>)
      requires Valid()
      modifies this
      ensures Valid()
      ensures var s := OrderedMap.Get(old(sessions), sid);
              if s.Some? && s.value.expires > now then r == s && sessions == old(sessions)
              else r == None && sessions == Delete(old(sessions), sid)
    {
      var session := OrderedMap.Get(sessions, sid);
      if session.Some? && session.value.expires > now {
        return session;
      }
      DeleteDistinct(sessions, sid);
      sessions := Delete(sessions, sid);
      return None;
    }

    /** `set(sid, session)`: stores a copy stamped to expire `maxAge` after `now`. */
    method Set(sid: string, data: T, now: int)
      requires Valid()
      modifies this
      ensures Valid()
      ensures sessions == OrderedMap.Set(old(sessions), sid, StoredSession(data, now + maxAge))
    {
      SetDistinct(sessions, sid, StoredSession(data, now + maxAge));
      sessions := OrderedMap.Set(sessions, sid, StoredSession(data, now + maxAge));
    }

    /** `destroy(sid)`. */
    method Destroy(sid: string)
      requires Valid()
      modifies this
      ensures Valid()
      ensures sessions == Delete(old(sessions), sid)
    {
      DeleteDistinct(sessions, sid);
      sessions := Delete(sessions, sid);
    }

    /** `cleanup()`: deletes every session whose expiry is at or before `now`. */
    method Cleanup(now: int)
      requires Valid()
      modifies this
      ensures Valid()
      ensures sessions == Filter(old(sessions), StillValid(now))
    {
      var kept := [];
      for i := 0 to |sessions|
        invariant sessions == old(sessions)
        invariant kept == Filter(sessions[..i], StillValid(now))
      {
        assert sessions[..i + 1] == sessions[..i] + [sessions[i]];
        FilterAppend(sessions[..i], [sessions[i]], StillValid(now));
        assert [sessions[i]][1..] == [];
        if sessions[i].value.expires > now {
          kept := kept + [sessions[i]];
        }
      }
      assert sessions[..|sessions|] == sessions;
      FilterDistinct(sessions, StillValid(now));
      sessions := kept;
    }
  }

  // ----------------------------------------------------------------- request gates

  /** The fields of `req.session` the gates use; `None` is `undefined`. A `requestCount`
    * of `None` after an increment is `NaN`. */
  class ProxySession {
    var proxySessionId: Option<string>
    var createdAt: Option<string>
    var lastActive: Option<string>
    var bandwidthUsed: Option<int>
    var requestCount: Option<int>
    var tier: Option<string>

    /** `req.session = {}`. */
    constructor()
      ensures proxySessionId == None && createdAt == None && lastActive == None
      ensures bandwidthUsed == None && requestCount == None && tier == None
    {
      proxySessionId := None;
      createdAt := None;
      lastActive := None;
      bandwidthUsed := None;
      requestCount := None;
      tier := None;
    }

    /** `ensureSession`: `newId` is the fresh `uuidv4()`, `nowIso` the current time as an
      * ISO string. */
    method EnsureSession(newId: string, nowIso: string)
      modifies this
      ensures Truthy(old(proxySessionId)) ==>
        && proxySessionId == old(proxySessionId) && createdAt == old(createdAt)
        && bandwidthUsed == old(bandwidthUsed) && tier == old(tier)
        && requestCount == Increment(old(requestCount))
      ensures !Truthy(old(proxySessionId)) ==>
        && proxySessionId == Some(newId) && createdAt == Some(nowIso)
        && bandwidthUsed == Some(0) && requestCount == Some(1)
        && tier == Some(OrElse(old(tier), "free"))
      ensures lastActive == Some(nowIso)
    {
      if !Truthy(proxySessionId) {
        proxySessionId := Some(newId);
        createdAt := Some(nowIso);
        bandwidthUsed := Some(0);
        requestCount := Some(0);
        tier := Some(OrElse(tier, "free"));
      }
      lastActive := Some(nowIso);
      requestCount := Increment(requestCount);
    }
  }

  /** A string field is truthy when it is present and non-empty. */
  predicate Truthy(x: Option<string>) {
    x.Some? && x.value != ""
  }

  /** `n++` on a number that may be `undefined` (`NaN` stays `NaN`). */
  function Increment(n: Option<int>): Option<int> {
    match n
    case None => None
    case Some(k) => Some(k + 1)
  }

  /** What a gate does with the request. */
  datatype Gate = Next | Reject(status: int)

  /** The limit `checkBandwidthLimit` applies: premium only for the exact tier `premium`. */
  function TierLimit(tier: Option<string>, freeLimit: int, premiumLimit: int): int {
    if OrElse(tier, "free") == "premium" then premiumLimit else freeLimit
  }

  /** `checkBandwidthLimit`: 429 once the recorded usage reaches the tier's limit; an
    * `undefined` usage compares false and passes. */
  function CheckBandwidthLimit(bandwidthUsed: Option<int>, tier: Option<string>, freeLimit: int,
                               premiumLimit: int): (r: Gate)
    ensures r == Next || r == Reject(429)
    ensures r.Reject? <==> bandwidthUsed.Some? && bandwidthUsed.value >= TierLimit(tier, freeLimit, premiumLimit)
  {
    match bandwidthUsed
    case None => Next
    case Some(used) => if used >= TierLimit(tier, freeLimit, premiumLimit) then Reject(429) else Next
  }

  /** Using more never turns a rejection into a pass. */
  lemma RejectionMonotone(u1: int, u2: int, tier: Option<string>, freeLimit: int, premiumLimit: int)
    requires u1 <= u2
    requires CheckBandwidthLimit(Some(u1), tier, freeLimit, premiumLimit).Reject?
    ensures CheckBandwidthLimit(Some(u2), tier, freeLimit, premiumLimit).Reject?
  {
  }

  /** The premium limit applies to the tier `premium` only; any other or no tier gets the free one. */
  lemma TierChoice(tier: Option<string>, freeLimit: int, premiumLimit: int)
    ensures TierLimit(tier, freeLimit, premiumLimit) == if tier == Some("premium") then premiumLimit else freeLimit
  {
    if tier.Some? && tier.value == "" {
      assert tier != Some("premium");
    }
  }
}
