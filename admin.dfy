/**
 * The state-changing part of src/admin/adminRouter.js: the Basic credential check every
 * admin route sits behind, and the handlers that edit the domain blocklist, the feature
 * switches and the blocked client addresses.
 */
module AdminRouter {
  import opened Wrappers
  import opened Strings
  import Base64
  import Utf8
  import UrlRewriter
  import Security

  // ----------------------------------------------------------------- adminAuth

  const Realm: string := "Basic realm=\"Admin Area\""

  /** `next()`, or a 401 with the `WWW-Authenticate` challenge and a message. */
  datatype AuthOutcome = Pass | Challenge(status: int, wwwAuthenticate: string, message: string)

  /** The decoded `user:password` payload split on every `:`. */
  function Credentials(auth: string): (r: seq<string>)
    requires StartsWith(auth, "Basic ")
    ensures |r| >= 1
    ensures forall i :: 0 <= i < |r| ==> ':' !in r[i]
  {
    var fields := Split(auth, ' ');
    BasicFields(auth);
    Split(Utf8.Decode(Base64.Decode(fields[1])), ':')
  }

  /** A `Basic ` header splits into at least the scheme and the token. */
  lemma BasicFields(auth: string)
    requires StartsWith(auth, "Basic ")
    ensures |Split(auth, ' ')| >= 2
  {
    assert auth == "Basic" + [' '] + auth[6..];
    SplitCons("Basic", ' ', auth[6..]);
  }

  /** `adminAuth`: a missing header or one without the `Basic ` scheme is challenged; so is
    * one whose first two `:`-fields are not the configured user name and password. */
  function AdminAuth(authorization: Option<string>, adminUsername: string, adminPassword: string): (r: AuthOutcome)
    ensures authorization.None? || !StartsWith(authorization.value, "Basic ") ==>
              r == Challenge(401, Realm, "Authentication required")
    ensures r.Challenge? ==> r.status == 401 && r.wwwAuthenticate == Realm
    ensures r == Pass ==>
      && authorization.Some? && StartsWith(authorization.value, "Basic ")
      && var c := Credentials(authorization.value);
         c[0] == adminUsername && |c| >= 2 && c[1] == adminPassword
    ensures authorization.Some? && StartsWith(authorization.value, "Basic ") ==>
      var c := Credentials(authorization.value);
      r == if c[0] == adminUsername && |c| >= 2 && c[1] == adminPassword then Pass
           else Challenge(401, Realm, "Invalid credentials")
  {
    if authorization.None? || !StartsWith(authorization.value, "Basic ") then
      Challenge(401, Realm, "Authentication required")
    else
      var credentials := Credentials(authorization.value);
      var username := credentials[0];
      var password := if |credentials| >= 2 then Some(credentials[1]) else None;
      if username != adminUsername || password != Some(adminPassword) then
        Challenge(401, Realm, "Invalid credentials")
      else Pass
  }

  /** The header a client sends for a payload (`Basic ` and the base64 of its UTF-8). */
  function BasicHeader(payload: string): string {
    "Basic " + Base64.Encode(Utf8.Encode(payload))
  }

  /** The credential check reads back the payload the client encoded. */
  lemma PayloadRoundTrip(payload: string)
    ensures StartsWith(BasicHeader(payload), "Basic ")
    ensures Credentials(BasicHeader(payload)) == Split(payload, ':')
  {
    var token := Base64.Encode(Utf8.Encode(payload));
    var header := BasicHeader(payload);
    assert header == "Basic" + [' '] + token;
    assert ' ' !in "Basic";
    assert forall i :: 0 <= i < |token| ==> token[i] != ' ';
    SplitCons("Basic", ' ', token);
    SplitFirstNoSep(token, ' ');
    assert Split(header, ' ')[1] == token;
    Base64.DecodeEncode(Utf8.Encode(payload));
    Utf8.DecodeEncode(payload);
  }

  /** `user:password` with `:`-free parts passes exactly when both parts are the configured ones. */
  lemma CredentialsChecked(user: string, password: string, adminUsername: string, adminPassword: string)
    requires ':' !in user && ':' !in password
    ensures AdminAuth(Some(BasicHeader(user + ":" + password)), adminUsername, adminPassword) == Pass
            <==> user == adminUsername && password == adminPassword
  {
    PayloadRoundTrip(user + ":" + password);
    TwoPartFields(user, password);
  }

  /** The fields of `user:password:rest`. */
  lemma ThreePartFields(user: string, password: string, rest: string)
    requires ':' !in user && ':' !in password
    ensures Split(user + ":" + password + ":" + rest, ':') == [user, password] + Split(rest, ':')
  {
    var long := user + ":" + password + ":" + rest;
    var tail := password + [':'] + rest;
    assert long == user + [':'] + tail;
    SplitCons(user, ':', tail);
    SplitCons(password, ':', rest);
    var s := Split(rest, ':');
    assert Split(long, ':') == [user] + ([password] + s);
    assert [user] + ([password] + s) == [user, password] + s;
  }

  /** The fields of `user:password`. */
  lemma TwoPartFields(user: string, password: string)
    requires ':' !in user && ':' !in password
    ensures Split(user + ":" + password, ':') == [user, password]
  {
    SplitCons(user, ':', password);
    SplitFirstNoSep(password, ':');
  }

  /** Text after a second `:` is ignored: `user:password:anything` passes like `user:password`. */
  lemma TrailingFieldsIgnored(user: string, password: string, rest: string, adminUsername: string,
                              adminPassword: string)
    requires ':' !in user && ':' !in password
    ensures AdminAuth(Some(BasicHeader(user + ":" + password + ":" + rest)), adminUsername, adminPassword)
            == AdminAuth(Some(BasicHeader(user + ":" + password)), adminUsername, adminPassword)
  {
    var long := user + ":" + password + ":" + rest;
    var short := user + ":" + password;
    PayloadRoundTrip(long);
    PayloadRoundTrip(short);
    ThreePartFields(user, password, rest);
    TwoPartFields(user, password);
    SameFieldsSameOutcome(BasicHeader(long), BasicHeader(short), adminUsername, adminPassword);
  }

  /** Only the first two fields of the payload matter. */
  lemma SameFieldsSameOutcome(a1: string, a2: string, adminUsername: string, adminPassword: string)
    requires StartsWith(a1, "Basic ") && StartsWith(a2, "Basic ")
    requires |Credentials(a1)| >= 2 && |Credentials(a2)| >= 2
    requires Credentials(a1)[..2] == Credentials(a2)[..2]
    ensures AdminAuth(Some(a1), adminUsername, adminPassword) == AdminAuth(Some(a2), adminUsername, adminPassword)
  {
    assert Credentials(a1)[0] == Credentials(a1)[..2][0] && Credentials(a1)[1] == Credentials(a1)[..2][1];
    assert Credentials(a2)[0] == Credentials(a2)[..2][0] && Credentials(a2)[1] == Credentials(a2)[..2][1];
  }

  /** A configured password containing `:` can never be matched. */
  lemma ColonPasswordUnmatchable(authorization: Option<string>, adminUsername: string, adminPassword: string)
    requires ':' in adminPassword
    ensures AdminAuth(authorization, adminUsername, adminPassword) != Pass
  {
  }

  // ----------------------------------------------------------------- the list and switch updates

  /** `if (!list.includes(d)) list.push(d)`. */
  function WithDomain(list: seq<string>, domain: string): (r: seq<string>)
    ensures domain in r
    ensures forall x :: x in r <==> x in list || x == domain
    ensures |r| <= |list| + 1
  {
    if domain in list then list else list + [domain]
  }

  /** `list.indexOf(d)` for a domain on the list: the first index holding it. */
  function FirstIndex(list: seq<string>, domain: string): (i: nat)
    requires domain in list
    ensures i < |list| && list[i] == domain && domain !in list[..i]
  {
    if list[0] == domain then 0
    else
      var j := FirstIndex(list[1..], domain);
      assert list[..j + 1] == [list[0]] + list[1..][..j];
      j + 1
  }

  /** `list.splice(list.indexOf(d), 1)` when the index is not -1: the first occurrence goes,
    * one copy fewer of the domain and nothing else changed. */
  function WithoutFirst(list: seq<string>, domain: string): (r: seq<string>)
    ensures domain !in list ==> r == list
    ensures domain in list ==>
      var i := FirstIndex(list, domain);
      r == list[..i] + list[i + 1..]
    ensures domain in list ==> |r| == |list| - 1 && multiset(r) == multiset(list) - multiset{domain}
  {
    if domain in list then
      var i := FirstIndex(list, domain);
      assert list == list[..i] + [domain] + list[i + 1..];
      list[..i] + list[i + 1..]
    else list
  }

  /** Blocking twice leaves a single copy. */
  lemma BlockIdempotent(list: seq<string>, domain: string)
    ensures WithDomain(WithDomain(list, domain), domain) == WithDomain(list, domain)
    ensures multiset(WithDomain(list, domain))[domain] == if domain in list then multiset(list)[domain] else 1
  {
  }

  /** Unblocking a domain that blocking added restores the list. */
  lemma UnblockUndoesBlock(list: seq<string>, domain: string)
    requires domain !in list
    ensures WithoutFirst(WithDomain(list, domain), domain) == list
  {
    assert WithDomain(list, domain) == list + [domain];
    WithoutAppended(list, domain);
  }

  lemma WithoutAppended(list: seq<string>, domain: string)
    requires domain !in list
    ensures WithoutFirst(list + [domain], domain) == list
  {
    var t := list + [domain];
    var i := FirstIndex(t, domain);
    assert t[..|list|] == list;
  }

  /** Without duplicates, unblocking removes the domain altogether. */
  lemma {:induction false} UnblockRemoves(list: seq<string>, domain: string)
    requires Security.NoDuplicates(list)
    ensures domain !in WithoutFirst(list, domain)
  {
    if list != [] {
      assert Security.NoDuplicates(list[1..]) by {
        forall i, j | 0 <= i < j < |list[1..]| ensures list[1..][i] != list[1..][j] {
          assert list[1..][i] == list[i + 1] && list[1..][j] == list[j + 1];
        }
      }
      if list[0] == domain {
        forall j | 0 <= j < |list[1..]| ensures list[1..][j] != domain {
          assert list[1..][j] == list[j + 1];
        }
      } else {
        UnblockRemoves(list[1..], domain);
      }
    }
  }

  /** A blocked domain and its subdomains are then refused by the URL guard. */
  lemma BlockedDomainIsGuarded(list: seq<string>, domain: string, sub: string)
    ensures UrlRewriter.IsDomainBlocked(domain, WithDomain(list, domain))
    ensures UrlRewriter.IsDomainBlocked(sub + "." + domain, WithDomain(list, domain))
  {
    var r := WithDomain(list, domain);
    var i :| 0 <= i < |r| && r[i] == domain;
    assert UrlRewriter.MatchesDomain(domain, r[i]);
    var h := sub + "." + domain;
    assert h[|h| - |"." + domain|..] == "." + domain;
    assert UrlRewriter.MatchesDomain(h, r[i]);
  }

  /** `config.features[feature] = enabled` under `hasOwnProperty`: no switch is added. */
  function Toggled(features: map<string, bool>, feature: string, enabled: bool): (r: map<string, bool>)
    ensures r.Keys == features.Keys
    ensures feature in features ==> r[feature] == enabled
    ensures forall f :: f in features && f != feature ==> r[f] == features[f]
  {
    if feature in features then features[feature := enabled] else features
  }

  // ----------------------------------------------------------------- the handlers

  /** The JSON reply: the 400 with its message, or the success body. */
  datatype AdminReply = BadRequest(error: string) | Success

  predicate Truthy(s: Option<string>) { s.Some? && s.value != "" }

  /** The parts of `config` the handlers change. */
  class AdminConfig {
    var blockedDomains: seq<string>
    var features: map<string, bool>

    constructor (blockedDomains: seq<string>, features: map<string, bool>)
      ensures this.blockedDomains == blockedDomains && this.features == features
    {
      this.blockedDomains := blockedDomains;
      this.features := features;
    }

    /** `POST /admin/api/block-domain`. */
    method BlockDomain(domain: Option<string>) returns (reply: AdminReply)
      modifies this
      ensures !Truthy(domain) ==> reply == BadRequest("Domain required") && blockedDomains == old(blockedDomains)
      ensures Truthy(domain) ==> reply == Success && blockedDomains == WithDomain(old(blockedDomains), domain.value)
      ensures features == old(features)
    {
      if !Truthy(domain) {
        return BadRequest("Domain required");
      }
      if domain.value !in blockedDomains {
        blockedDomains := blockedDomains + [domain.value];
      }
      reply := Success;
    }

    /** `POST /admin/api/unblock-domain`. */
    method UnblockDomain(domain: Option<string>) returns (reply: AdminReply)
      modifies this
      ensures !Truthy(domain) ==> reply == BadRequest("Domain required") && blockedDomains == old(blockedDomains)
      ensures Truthy(domain) ==> reply == Success && blockedDomains == WithoutFirst(old(blockedDomains), domain.value)
      ensures features == old(features)
    {
      if !Truthy(domain) {
        return BadRequest("Domain required");
      }
      blockedDomains := WithoutFirst(blockedDomains, domain.value);
      reply := Success;
    }

    /** `POST /admin/api/toggle-feature`; `enabled` is `None` when it is not a boolean. */
    method ToggleFeature(feature: Option<string>, enabled: Option<bool>) returns (reply: AdminReply)
      modifies this
      ensures !Truthy(feature) || enabled.None? ==>
                reply == BadRequest("Feature and enabled status required") && features == old(features)
      ensures Truthy(feature) && enabled.Some? ==>
                reply == Success && features == Toggled(old(features), feature.value, enabled.value)
      ensures blockedDomains == old(blockedDomains)
    {
      if !Truthy(feature) || enabled.None? {
        return BadRequest("Feature and enabled status required");
      }
      if feature.value in features {
        features := features[feature.value := enabled.value];
      }
      reply := Success;
    }
  }

  /** `POST /admin/api/block-ip`. */
  method BlockIp(ips: Security.IpBlocklist, ip: Option<string>) returns (reply: AdminReply)
    requires ips.Valid()
    modifies ips
    ensures ips.Valid()
    ensures !Truthy(ip) ==> reply == BadRequest("IP address required") && ips.ips == old(ips.ips)
    ensures Truthy(ip) ==> reply == Success && ips.ips == if ip.value in old(ips.ips) then old(ips.ips) else old(ips.ips) + [ip.value]
  {
    if !Truthy(ip) {
      return BadRequest("IP address required");
    }
    ips.Block(ip.value);
    reply := Success;
  }

  /** `POST /admin/api/unblock-ip`. */
  method UnblockIp(ips: Security.IpBlocklist, ip: Option<string>) returns (reply: AdminReply)
    requires ips.Valid()
    modifies ips
    ensures ips.Valid()
    ensures !Truthy(ip) ==> reply == BadRequest("IP address required") && ips.ips == old(ips.ips)
    ensures Truthy(ip) ==> reply == Success && ips.ips == Security.Without(old(ips.ips), ip.value)
  {
    if !Truthy(ip) {
      return BadRequest("IP address required");
    }
    ips.Unblock(ip.value);
    reply := Success;
  }
}
