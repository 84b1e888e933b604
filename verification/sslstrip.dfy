/**
 The SSL-strip plugin: each request loses the headers that make a browser
 ask for HTTPS and is sent upstream over HTTPS when its host is known to
 need it; each response loses the headers that enforce HTTPS, has its
 `https://` links downgraded, and teaches the registry of secure hosts the
 host of any HTTPS redirect it carries.
 */
module SslStrip {
  import opened Base
  import opened Text
  import opened Headers

  const IfModifiedSince := "If-Modified-Since"
  const CacheControl := "Cache-Control"
  const UpgradeInsecureRequests := "Upgrade-Insecure-Requests"
  const StrictTransportSecurity := "Strict-Transport-Security"
  const PublicKeyPins := "Public-Key-Pins"
  const Location := "Location"
  const ContentSecurityPolicy := "Content-Security-Policy"
  const SetCookie := "Set-Cookie"

  const Https := "https://"
  const Http := "http://"
  /** The CSP directive that makes a browser upgrade every link. */
  const Directive := "upgrade-insecure-requests"
  const Secure := "secure"

  /** The hosts learned to require HTTPS (`secure_hosts`). It is never
      shrunk; the model threads it from call to call. */
  type Registry = set<string>

  /** `prettyHost` is the host named by the `Host` header, `host` the
      address the proxy connects to. */
  datatype Request = Request(scheme: string, host: string, port: nat, prettyHost: string, headers: HeaderList)

  datatype Response = Response(headers: HeaderList, body: string)

  /* ---------------------------------------------------------------------
     Request side
     --------------------------------------------------------------------- */

  /** The request headers the rewrite drops. */
  const RequestDropped := [IfModifiedSince, CacheControl, UpgradeInsecureRequests]

  function RewriteRequest(req: Request, secureHosts: Registry): (r: Request)
    ensures forall x :: x in r.headers ==>
      !SameName(x.name, IfModifiedSince) && !SameName(x.name, CacheControl) && !SameName(x.name, UpgradeInsecureRequests)
    ensures r.headers == Others(req.headers, RequestDropped)
    ensures IsSubseq(r.headers, req.headers)
    ensures forall m :: !SameName(m, IfModifiedSince) && !SameName(m, CacheControl) && !SameName(m, UpgradeInsecureRequests) ==>
      Select(r.headers, m) == Select(req.headers, m)
    ensures req.prettyHost in secureHosts ==> r.scheme == "https" && r.port == 443 && r.host == req.prettyHost
    ensures req.prettyHost !in secureHosts ==> r.scheme == req.scheme && r.port == req.port && r.host == req.host
    ensures r.prettyHost == req.prettyHost
  {
    var h := Remove(Remove(Remove(req.headers, IfModifiedSince), CacheControl), UpgradeInsecureRequests);
    RequestHeadersKept(req.headers);
    if req.prettyHost in secureHosts then
      req.(headers := h, scheme := "https", port := 443, host := req.prettyHost)
    else
      req.(headers := h)
  }

  /** Popping the three request headers one after the other leaves
      exactly the fields with other names. */
  lemma RequestHeadersKept(h: HeaderList)
    ensures Remove(Remove(Remove(h, IfModifiedSince), CacheControl), UpgradeInsecureRequests) == Others(h, RequestDropped)
  {
    var ns := RequestDropped;
    var h1 := Remove(h, IfModifiedSince);
    var h2 := Remove(h1, CacheControl);
    var h3 := Remove(h2, UpgradeInsecureRequests);
    OthersRemove(h, IfModifiedSince, ns);
    OthersRemove(h1, CacheControl, ns);
    OthersRemove(h2, UpgradeInsecureRequests, ns);
    RequestCleanOthers(h3);
  }

  lemma RequestCleanOthers(h: HeaderList)
    requires forall x :: x in h ==>
      !SameName(x.name, IfModifiedSince) && !SameName(x.name, CacheControl) && !SameName(x.name, UpgradeInsecureRequests)
    ensures Others(h, RequestDropped) == h
  {
    forall x | x in h
      ensures !NamedIn(x.name, RequestDropped)
    {
    }
    OthersOfClean(h, RequestDropped);
  }

  /* ---------------------------------------------------------------------
     Response side, one step at a time
     --------------------------------------------------------------------- */

  /** The header names the response side reads or drops are pairwise different. */
  lemma ResponseHeaderNamesDistinct()
    ensures !SameName(Location, StrictTransportSecurity) && !SameName(Location, PublicKeyPins)
    ensures !SameName(ContentSecurityPolicy, StrictTransportSecurity) && !SameName(ContentSecurityPolicy, PublicKeyPins)
    ensures !SameName(SetCookie, StrictTransportSecurity) && !SameName(SetCookie, PublicKeyPins)
    ensures !SameName(Location, ContentSecurityPolicy) && !SameName(Location, SetCookie)
    ensures !SameName(ContentSecurityPolicy, Location) && !SameName(ContentSecurityPolicy, SetCookie)
    ensures !SameName(SetCookie, Location) && !SameName(SetCookie, ContentSecurityPolicy)
    ensures !SameName(StrictTransportSecurity, Location) && !SameName(StrictTransportSecurity, ContentSecurityPolicy)
    ensures !SameName(StrictTransportSecurity, SetCookie)
    ensures !SameName(PublicKeyPins, Location) && !SameName(PublicKeyPins, ContentSecurityPolicy)
    ensures !SameName(PublicKeyPins, SetCookie)
  {
  }

  /** The two headers that pin a site to HTTPS are dropped. */
  function StripEnforcementHeaders(h: HeaderList): (r: HeaderList)
    ensures forall x :: x in r ==> !SameName(x.name, StrictTransportSecurity) && !SameName(x.name, PublicKeyPins)
    ensures r == Others(h, [StrictTransportSecurity, PublicKeyPins])
    ensures IsSubseq(r, h)
    ensures forall m :: !SameName(m, StrictTransportSecurity) && !SameName(m, PublicKeyPins) ==> Select(r, m) == Select(h, m)
  {
    EnforcementHeadersKept(h);
    Remove(Remove(h, StrictTransportSecurity), PublicKeyPins)
  }

  lemma EnforcementHeadersKept(h: HeaderList)
    ensures Remove(Remove(h, StrictTransportSecurity), PublicKeyPins) == Others(h, [StrictTransportSecurity, PublicKeyPins])
  {
    var ns := [StrictTransportSecurity, PublicKeyPins];
    var h1 := Remove(h, StrictTransportSecurity);
    var h2 := Remove(h1, PublicKeyPins);
    OthersRemove(h, StrictTransportSecurity, ns);
    OthersRemove(h1, PublicKeyPins, ns);
    EnforcementCleanOthers(h2);
  }

  lemma EnforcementCleanOthers(h: HeaderList)
    requires forall x :: x in h ==> !SameName(x.name, StrictTransportSecurity) && !SameName(x.name, PublicKeyPins)
    ensures Others(h, [StrictTransportSecurity, PublicKeyPins]) == h
  {
    forall x | x in h
      ensures !NamedIn(x.name, [StrictTransportSecurity, PublicKeyPins])
    {
    }
    OthersOfClean(h, [StrictTransportSecurity, PublicKeyPins]);
  }

  /** Every `https://` of the body becomes `http://`. */
  function StripBody(body: string): (r: string)
    ensures !Contains(r, Https)
    ensures |r| == |body| - CountOccurrences(body, Https)
    ensures r == body <==> !Contains(body, Https)
  {
    ReplaceLeavesNoHttps(body);
    ReplaceAllLength(body, Https, Http);
    ReplaceAllIdentity(body, Https, Http);
    ReplaceAll(body, Https, Http)
  }

  /** A prefix free of `h` in the rewritten text was already in the original:
      the replacement `http://` is the only new text and it starts with `h`. */
  lemma {:induction false} ReplaceKeepsPrefixWithoutH(s: string, q: string)
    ensures 'h' !in q && StartsWith(ReplaceAll(s, Https, Http), q) ==> StartsWith(s, q)
    decreases |s|
  {
    var r := ReplaceAll(s, Https, Http);
    if |s| < |Https| || q == [] {
    } else if s[..|Https|] == Https {
      assert r[0] == 'h';
    } else {
      var rest := ReplaceAll(s[1..], Https, Http);
      assert r == [s[0]] + rest;
      ReplaceKeepsPrefixWithoutH(s[1..], q[1..]);
      if 'h' !in q && StartsWith(r, q) {
        assert q[0] == s[0];
        assert rest[..|q| - 1] == r[1..|q|] == q[1..];
        assert s[..|q|] == [s[0]] + s[1..][..|q| - 1];
      }
    }
  }

  lemma {:induction false} ReplaceLeavesNoHttps(s: string)
    ensures !Contains(ReplaceAll(s, Https, Http), Https)
    decreases |s|
  {
    var r := ReplaceAll(s, Https, Http);
    if |s| < |Https| {
      assert r == s;
    } else if s[..|Https|] == Https {
      var rest := ReplaceAll(s[|Https|..], Https, Http);
      ReplaceLeavesNoHttps(s[|Https|..]);
      assert r == Http + rest;
      forall i | 0 <= i <= |r| - |Https|
        ensures !OccursAt(r, Https, i)
      {
        if 7 <= i {
          assert r[i..i + 8] == rest[i - 7..i - 7 + 8];
          assert !OccursAt(rest, Https, i - 7);
        } else if i == 0 {
          assert r[i..i + 8][4] == r[4] == ':';
        } else {
          assert r[i..i + 8][0] == r[i] == Http[i];
        }
      }
    } else {
      var rest := ReplaceAll(s[1..], Https, Http);
      ReplaceLeavesNoHttps(s[1..]);
      assert r == [s[0]] + rest;
      forall i | 0 <= i <= |r| - |Https|
        ensures !OccursAt(r, Https, i)
      {
        if 1 <= i {
          assert r[i..i + 8] == rest[i - 1..i - 1 + 8];
          assert !OccursAt(rest, Https, i - 1);
        } else {
          ReplaceKeepsPrefixWithoutH(s[1..], "ttps://");
          assert s[..8] == [s[0]] + s[1..][..7];
          assert !(StartsWith(s[1..], "ttps://") && s[0] == 'h');
          assert !(StartsWith(rest, "ttps://") && s[0] == 'h');
          ConsSlice(s[0], rest, 7);
          assert r[0] == s[0] && r[1..8] == rest[..7];
        }
      }
    }
  }

  lemma ConsSlice(c: char, rest: string, n: nat)
    requires n <= |rest|
    ensures ([c] + rest)[1..n + 1] == rest[..n]
  {
  }

  /** Text in which no `https://` starts is kept as it is. */
  lemma StripBodyKeepsText(a: string, b: string)
    requires forall i | 0 <= i < |a| :: !OccursAt(a + b, Https, i)
    ensures StripBody(a + b) == a + StripBody(b)
  {
    ReplaceAllCopiesPrefix(a, b, Https, Http);
  }

  /** Each `https://` becomes `http://`. With `StripBodyKeepsText` and the
      empty body this fixes the rewrite of every body. */
  lemma StripBodyAtLink(b: string)
    ensures StripBody(Https + b) == Http + StripBody(b)
  {
    ReplaceAllAtOccurrence(b, Https, Http);
  }

  /** Text without an `h` starts no `https://`, whatever follows it. */
  lemma NoLinkStartsIn(a: string, b: string)
    requires 'h' !in a
    ensures forall i | 0 <= i < |a| :: !OccursAt(a + b, Https, i)
  {
    forall i | 0 <= i < |a|
      ensures !OccursAt(a + b, Https, i)
    {
      assert (a + b)[i] == a[i];
      if i + |Https| <= |a + b| {
        assert (a + b)[i..i + |Https|][0] == a[i];
      }
    }
  }

  /** A link in running text: only the scheme changes. */
  lemma StripBodyExample()
    ensures StripBody("go to " + (Https + "bank.com")) == "go to " + (Http + "bank.com")
  {
    NoLinkStartsIn("go to ", Https + "bank.com");
    StripBodyKeepsText("go to ", Https + "bank.com");
    StripBodyAtLink("bank.com");
    NoLinkStartsIn("bank.com", "");
    StripBodyKeepsText("bank.com", "");
    assert "bank.com" + "" == "bank.com";
  }

  /** Rewriting the body a second time changes nothing. */
  lemma StripBodyIdempotent(body: string)
    ensures StripBody(StripBody(body)) == StripBody(body)
  {
  }

  function LocationOf(h: HeaderList): string
  {
    Get(h, Location).GetOr("")
  }

  /** The registry learns `x` from this response: its `Location` is an
      HTTPS URL whose host, as `hostOf` extracts it, is `x`, and `x` is not empty. */
  predicate Learns(resp: Response, hostOf: string -> string, x: string)
  {
    var loc := LocationOf(resp.headers);
    StartsWith(loc, Https) && x == hostOf(loc) && x != ""
  }

  /** An HTTPS redirect feeds its host to the registry and is
      downgraded; any other `Location` is left alone. `hostOf` stands for
      `urlparse(url).hostname`, with "" for no host. */
  function StripLocation(h: HeaderList, secureHosts: Registry, hostOf: string -> string): (out: (HeaderList, Registry))
    ensures var loc := LocationOf(h);
      && (StartsWith(loc, Https) ==> GetAll(out.0, Location) == [Http + loc[|Https|..]])
      && (!StartsWith(loc, Https) ==> out.0 == h)
      && (forall x :: x in out.1 <==> x in secureHosts || (StartsWith(loc, Https) && x == hostOf(loc) && x != ""))
    ensures forall m :: !SameName(m, Location) ==> Select(out.0, m) == Select(h, m)
  {
    var loc := LocationOf(h);
    if StartsWith(loc, Https) then
      var host := hostOf(loc);
      var hosts := if host != "" then secureHosts + {host} else secureHosts;
      ReplaceFirstOfPrefix(loc, Https, Http);
      (Set(h, Location, ReplaceFirst(loc, Https, Http)), hosts)
    else
      (h, secureHosts)
  }

  predicate IsSeparator(c: char)
  {
    c == ';' || IsWhitespace(c)
  }

  /** The length of the match at the start of `t`: the directive in any
      case, then every `;` and whitespace character that follows it. */
  function DirectiveLength(t: string): (n: nat)
    ensures n <= |t|
    ensures n > 0 <==> OccursAtIgnoringCase(t, Directive, 0)
    ensures n > 0 ==> |Directive| <= n && (forall k :: |Directive| <= k < n ==> IsSeparator(t[k]))
    ensures n > 0 ==> n == |t| || !IsSeparator(t[n])
  {
    if OccursAtIgnoringCase(t, Directive, 0) then |Directive| + RunLength(t[|Directive|..], IsSeparator) else 0
  }

  /** Deletes, left to right, each occurrence of the directive (in any
      case) together with the `;` and whitespace run after it. */
  function CutDirective(csp: string): string
  {
    DeleteMatches(csp, DirectiveLength)
  }

  /** The directive is cut with its trailing separators and nothing else:
      the result keeps the other characters in order, and it differs from
      the input exactly when the input mentions the directive. */
  lemma CutDirectiveSpec(csp: string)
    ensures IsSubseq(CutDirective(csp), csp)
    ensures CutDirective(csp) == csp <==> !ContainsIgnoringCase(csp, Directive)
  {
    DeleteMatchesKeepsOrder(csp, DirectiveLength);
    DeleteMatchesIdentity(csp, DirectiveLength);
    DirectiveMatches(csp);
  }

  /** A position starts a match of the pattern exactly where the directive occurs. */
  lemma DirectiveMatches(csp: string)
    ensures HasMatch(csp, DirectiveLength) <==> ContainsIgnoringCase(csp, Directive)
  {
    if HasMatch(csp, DirectiveLength) {
      var i :| 0 <= i < |csp| && DirectiveLength(csp[i..]) > 0;
      DirectiveMatchAt(csp, i);
      assert OccursAtIgnoringCase(csp, Directive, i);
    }
    if ContainsIgnoringCase(csp, Directive) {
      var i :| 0 <= i <= |csp| - |Directive| && OccursAtIgnoringCase(csp, Directive, i);
      DirectiveMatchAt(csp, i);
      assert DirectiveLength(csp[i..]) > 0;
    }
  }

  lemma DirectiveMatchAt(csp: string, i: nat)
    requires i <= |csp|
    ensures DirectiveLength(csp[i..]) > 0 <==> OccursAtIgnoringCase(csp, Directive, i)
  {
    if i + |Directive| <= |csp| {
      assert csp[i..][..|Directive|] == csp[i..i + |Directive|];
    }
  }

  /** The first CSP value is rewritten only if it names the directive. */
  function StripCsp(h: HeaderList): (r: HeaderList)
    ensures var csp := Get(h, ContentSecurityPolicy).GetOr("");
      && (ContainsIgnoringCase(csp, Directive) ==> GetAll(r, ContentSecurityPolicy) == [CutDirective(csp)])
      && (!ContainsIgnoringCase(csp, Directive) ==> r == h)
    ensures forall m :: !SameName(m, ContentSecurityPolicy) ==> Select(r, m) == Select(h, m)
  {
    var csp := Get(h, ContentSecurityPolicy).GetOr("");
    if ContainsIgnoringCase(csp, Directive) then Set(h, ContentSecurityPolicy, CutDirective(csp)) else h
  }

  /** `t` starts with `;`, whitespace up to index `a`, then `secure`. */
  predicate SecureFlagAt(t: string, a: int)
  {
    1 <= a && a + |Secure| <= |t| && t[0] == ';' && (forall k :: 1 <= k < a ==> IsWhitespace(t[k])) && t[a..a + |Secure|] == Secure
  }

  /** The length of the match at the start of `t`: a `;`, whitespace,
      lower-case `secure`, and the whitespace after it. */
  function SecureFlagLength(t: string): (n: nat)
    ensures n <= |t|
    ensures n > 0 <==> exists a :: SecureFlagAt(t, a)
    ensures n > 0 ==> exists a :: SecureFlagAt(t, a) && a + |Secure| <= n && forall k | a + |Secure| <= k < n :: IsWhitespace(t[k])
    ensures n > 0 ==> n == |t| || !IsWhitespace(t[n])
  {
    if t == [] || t[0] != ';' then 0
    else
      var a := 1 + RunLength(t[1..], IsWhitespace);
      if StartsWith(t[a..], Secure) then
        assert t[a..][..|Secure|] == t[a..a + |Secure|];
        assert SecureFlagAt(t, a);
        var n := a + |Secure| + RunLength(t[a + |Secure|..], IsWhitespace);
        assert forall k | a + |Secure| <= k < n :: t[k] == t[a + |Secure|..][k - a - |Secure|];
        n
      else
        assert forall b :: SecureFlagAt(t, b) ==> b == a by {
          forall b ensures SecureFlagAt(t, b) ==> b == a { SecureFlagPosition(t, b); }
        }
        assert a + |Secure| <= |t| ==> t[a..][..|Secure|] == t[a..a + |Secure|];
        0
  }

  /** The whitespace before `secure` is the maximal run after the `;`. */
  lemma SecureFlagPosition(t: string, b: int)
    ensures SecureFlagAt(t, b) ==> b == 1 + RunLength(t[1..], IsWhitespace)
  {
    if SecureFlagAt(t, b) {
      assert forall k :: 0 <= k < b - 1 ==> IsWhitespace(t[1..][k]);
      assert !IsWhitespace(t[1..][b - 1]);
    }
  }

  /** Deletes, left to right, each `;` followed by optional whitespace,
      lower-case `secure` and optional whitespace. */
  function CutSecureFlag(cookie: string): string
  {
    DeleteMatches(cookie, SecureFlagLength)
  }

  ghost predicate HasSecureFlag(cookie: string)
  {
    exists i, a :: 0 <= i < |cookie| && SecureFlagAt(cookie[i..], a)
  }

  /** A cookie keeps every character outside the deleted flags, in order,
      and is left alone exactly when it carries no `;secure` flag. */
  lemma CutSecureFlagSpec(cookie: string)
    ensures IsSubseq(CutSecureFlag(cookie), cookie)
    ensures CutSecureFlag(cookie) == cookie <==> !HasSecureFlag(cookie)
  {
    DeleteMatchesKeepsOrder(cookie, SecureFlagLength);
    DeleteMatchesIdentity(cookie, SecureFlagLength);
    if HasSecureFlag(cookie) {
      var i, a :| 0 <= i < |cookie| && SecureFlagAt(cookie[i..], a);
      assert SecureFlagLength(cookie[i..]) > 0;
    }
  }

  /** Every `Set-Cookie` value loses its secure flag; the
      fields keep their count, order and positions. */
  function StripCookies(h: HeaderList): (r: HeaderList)
    ensures var cookies := GetAll(h, SetCookie);
      && |GetAll(r, SetCookie)| == |cookies|
      && (forall k :: 0 <= k < |cookies| ==> GetAll(r, SetCookie)[k] == CutSecureFlag(cookies[k]))
    ensures |r| == |h|
    ensures forall k :: 0 <= k < |h| ==> r[k].name == h[k].name
    ensures forall k :: 0 <= k < |h| && !SameName(h[k].name, SetCookie) ==> r[k] == h[k]
    ensures forall m :: !SameName(m, SetCookie) ==> Select(r, m) == Select(h, m)
  {
    var cookies := GetAll(h, SetCookie);
    var stripped := seq(|cookies|, k requires 0 <= k < |cookies| => CutSecureFlag(cookies[k]));
    SetAllInPlace(h, SetCookie, stripped);
    SetAll(h, SetCookie, stripped)
  }

  /* ---------------------------------------------------------------------
     The whole response rewrite
     --------------------------------------------------------------------- */

  /** The response after every step, with the registry it leaves behind;
      `RewriteResponseSpec` states what it does. */
  function RewriteResponse(resp: Response, secureHosts: Registry, hostOf: string -> string): (Response, Registry)
  {
    var h1 := StripEnforcementHeaders(resp.headers);
    var (h2, hosts) := StripLocation(h1, secureHosts, hostOf);
    (Response(StripCookies(StripCsp(h2)), StripBody(resp.body)), hosts)
  }

  /** What the response rewrite promises: the enforcement headers are gone,
      the body holds no `https://`, an HTTPS redirect is downgraded and its
      host learned (and nothing else is learned), the CSP directive and the
      cookies' secure flags are cut, and every other header is untouched. */
  lemma RewriteResponseSpec(resp: Response, secureHosts: Registry, hostOf: string -> string)
    ensures forall x :: x in RewriteResponse(resp, secureHosts, hostOf).0.headers ==> !SameName(x.name, StrictTransportSecurity) && !SameName(x.name, PublicKeyPins)
    ensures !Contains(RewriteResponse(resp, secureHosts, hostOf).0.body, Https)
    ensures |RewriteResponse(resp, secureHosts, hostOf).0.body| == |resp.body| - CountOccurrences(resp.body, Https)
    ensures var loc := LocationOf(resp.headers);
      && (StartsWith(loc, Https) ==> GetAll(RewriteResponse(resp, secureHosts, hostOf).0.headers, Location) == [Http + loc[|Https|..]])
      && (!StartsWith(loc, Https) ==> GetAll(RewriteResponse(resp, secureHosts, hostOf).0.headers, Location) == GetAll(resp.headers, Location))
    ensures forall x :: x in RewriteResponse(resp, secureHosts, hostOf).1 <==> x in secureHosts || Learns(resp, hostOf, x)
    ensures var csp := Get(resp.headers, ContentSecurityPolicy).GetOr("");
      && (ContainsIgnoringCase(csp, Directive) ==> GetAll(RewriteResponse(resp, secureHosts, hostOf).0.headers, ContentSecurityPolicy) == [CutDirective(csp)])
      && (!ContainsIgnoringCase(csp, Directive) ==> GetAll(RewriteResponse(resp, secureHosts, hostOf).0.headers, ContentSecurityPolicy) == GetAll(resp.headers, ContentSecurityPolicy))
    ensures var cookies := GetAll(resp.headers, SetCookie);
      && |GetAll(RewriteResponse(resp, secureHosts, hostOf).0.headers, SetCookie)| == |cookies|
      && (forall k :: 0 <= k < |cookies| ==> GetAll(RewriteResponse(resp, secureHosts, hostOf).0.headers, SetCookie)[k] == CutSecureFlag(cookies[k]))
    ensures forall m ::
      && !SameName(m, StrictTransportSecurity) && !SameName(m, PublicKeyPins) && !SameName(m, Location)
      && !SameName(m, ContentSecurityPolicy) && !SameName(m, SetCookie)
      ==> Select(RewriteResponse(resp, secureHosts, hostOf).0.headers, m) == Select(resp.headers, m)
    ensures Others(RewriteResponse(resp, secureHosts, hostOf).0.headers, ResponseTouched) == Others(resp.headers, ResponseTouched)
  {
    ResponseHeaderNamesDistinct();
    RewriteResponseSteps(resp, secureHosts, hostOf);
    RewriteResponseKeepsOthers(resp, secureHosts, hostOf);
  }

  /** The response headers the rewrite drops or rewrites. */
  const ResponseTouched := [StrictTransportSecurity, PublicKeyPins, Location, ContentSecurityPolicy, SetCookie]

  /** The rewrite never touches a field under any other name: those fields
      come out exactly as they went in, in the same order relative to one
      another. */
  lemma RewriteResponseKeepsOthers(resp: Response, secureHosts: Registry, hostOf: string -> string)
    ensures Others(RewriteResponse(resp, secureHosts, hostOf).0.headers, ResponseTouched) == Others(resp.headers, ResponseTouched)
  {
    var ns := ResponseTouched;
    var h := resp.headers;
    var h0 := Remove(h, StrictTransportSecurity);
    OthersRemove(h, StrictTransportSecurity, ns);
    OthersRemove(h0, PublicKeyPins, ns);
    var h1 := StripEnforcementHeaders(h);
    var h2 := StripLocation(h1, secureHosts, hostOf).0;
    OthersStripLocation(h1, secureHosts, hostOf);
    OthersStripCsp(h2);
    OthersStripCookies(StripCsp(h2));
    RewriteResponseSteps(resp, secureHosts, hostOf);
  }

  lemma OthersStripLocation(h: HeaderList, secureHosts: Registry, hostOf: string -> string)
    ensures Others(StripLocation(h, secureHosts, hostOf).0, ResponseTouched) == Others(h, ResponseTouched)
  {
    var loc := LocationOf(h);
    if StartsWith(loc, Https) {
      OthersSetAll(h, Location, [ReplaceFirst(loc, Https, Http)], ResponseTouched);
    }
  }

  lemma OthersStripCsp(h: HeaderList)
    ensures Others(StripCsp(h), ResponseTouched) == Others(h, ResponseTouched)
  {
    var csp := Get(h, ContentSecurityPolicy).GetOr("");
    if ContainsIgnoringCase(csp, Directive) {
      OthersSetAll(h, ContentSecurityPolicy, [CutDirective(csp)], ResponseTouched);
    }
  }

  lemma OthersStripCookies(h: HeaderList)
    ensures Others(StripCookies(h), ResponseTouched) == Others(h, ResponseTouched)
  {
    var cookies := GetAll(h, SetCookie);
    var stripped := seq(|cookies|, k requires 0 <= k < |cookies| => CutSecureFlag(cookies[k]));
    OthersSetAll(h, SetCookie, stripped, ResponseTouched);
  }

  /** A second pass learns nothing new and leaves the body and the
      `Location` values alone. */
  lemma RewriteResponseTwice(resp: Response, secureHosts: Registry, hostOf: string -> string)
    ensures var out1 := RewriteResponse(resp, secureHosts, hostOf);
      RewriteResponse(out1.0, out1.1, hostOf).1 == out1.1
    ensures var out1 := RewriteResponse(resp, secureHosts, hostOf);
      RewriteResponse(out1.0, out1.1, hostOf).0.body == out1.0.body
    ensures var out1 := RewriteResponse(resp, secureHosts, hostOf);
      GetAll(RewriteResponse(out1.0, out1.1, hostOf).0.headers, Location) == GetAll(out1.0.headers, Location)
  {
    var out1 := RewriteResponse(resp, secureHosts, hostOf);
    SecondPassSeesNoHttpsRedirect(resp, secureHosts, hostOf);
    NoRedirectLearnsNothing(resp, secureHosts, hostOf);
    NoRedirectLearnsNothing(out1.0, out1.1, hostOf);
    StripBodyIdempotent(resp.body);
  }

  /** After the rewrite, `Location` no longer names an HTTPS URL. */
  lemma SecondPassSeesNoHttpsRedirect(resp: Response, secureHosts: Registry, hostOf: string -> string)
    ensures !StartsWith(LocationOf(RewriteResponse(resp, secureHosts, hostOf).0.headers), Https)
  {
    var loc := LocationOf(resp.headers);
    var h1 := RewriteResponse(resp, secureHosts, hostOf).0.headers;
    RewriteResponseSpec(resp, secureHosts, hostOf);
    if StartsWith(loc, Https) {
      assert LocationOf(h1) == Http + loc[|Https|..];
      DowngradedIsNotHttps(loc[|Https|..]);
    } else {
      assert LocationOf(h1) == loc;
    }
  }

  lemma DowngradedIsNotHttps(rest: string)
    ensures !StartsWith(Http + rest, Https)
  {
    var d := Http + rest;
    assert d[4] == Http[4] == ':';
    assert |Https| <= |d| ==> d[..|Https|][4] == d[4];
  }

  /** The second pass is a no-op altogether when the first left no
      directive in the CSP value and no secure flag in any cookie. */
  lemma RewriteResponseTwiceNoOp(resp: Response, secureHosts: Registry, hostOf: string -> string)
    requires var r1 := RewriteResponse(resp, secureHosts, hostOf).0;
      && !ContainsIgnoringCase(Get(r1.headers, ContentSecurityPolicy).GetOr(""), Directive)
      && forall c :: c in GetAll(r1.headers, SetCookie) ==> !HasSecureFlag(c)
    ensures var (r1, hosts1) := RewriteResponse(resp, secureHosts, hostOf);
      RewriteResponse(r1, hosts1, hostOf) == (r1, hosts1)
  {
    var out1 := RewriteResponse(resp, secureHosts, hostOf);
    SecondPassSeesNoHttpsRedirect(resp, secureHosts, hostOf);
    RewriteResponseSpec(resp, secureHosts, hostOf);
    RewriteResponseFixedPoint(out1.0, out1.1, hostOf);
  }

  /** Without an HTTPS redirect the registry and `Location` stay as they are. */
  lemma NoRedirectLearnsNothing(resp: Response, secureHosts: Registry, hostOf: string -> string)
    ensures RewriteResponse(resp, secureHosts, hostOf).0.body == StripBody(resp.body)
    ensures !StartsWith(LocationOf(resp.headers), Https) ==> RewriteResponse(resp, secureHosts, hostOf).1 == secureHosts
    ensures !StartsWith(LocationOf(resp.headers), Https) ==>
      GetAll(RewriteResponse(resp, secureHosts, hostOf).0.headers, Location) == GetAll(resp.headers, Location)
  {
    RewriteResponseSteps(resp, secureHosts, hostOf);
    ResponseHeaderNamesDistinct();
  }

  /** The rewrite leaves a response alone when it finds nothing to do: no
      enforcement header, no HTTPS redirect, no directive in the CSP value,
      no secure flag in a cookie, no `https://` in the body. */
  lemma RewriteResponseFixedPoint(resp: Response, secureHosts: Registry, hostOf: string -> string)
    requires !StartsWith(LocationOf(resp.headers), Https)
    requires forall x :: x in resp.headers ==> !SameName(x.name, StrictTransportSecurity) && !SameName(x.name, PublicKeyPins)
    requires !Contains(resp.body, Https)
    requires !ContainsIgnoringCase(Get(resp.headers, ContentSecurityPolicy).GetOr(""), Directive)
    requires forall c :: c in GetAll(resp.headers, SetCookie) ==> !HasSecureFlag(c)
    ensures RewriteResponse(resp, secureHosts, hostOf) == (resp, secureHosts)
  {
    var h := resp.headers;
    EnforcementHeadersFixedPoint(h);
    var h2 := StripLocation(h, secureHosts, hostOf).0;
    assert h2 == h;
    assert StripCsp(h2) == h;
    CookiesFixedPoint(h);
    assert StripBody(resp.body) == resp.body;
    RewriteResponseSteps(resp, secureHosts, hostOf);
  }

  lemma CookiesFixedPoint(h: HeaderList)
    requires forall c :: c in GetAll(h, SetCookie) ==> !HasSecureFlag(c)
    ensures StripCookies(h) == h
  {
    var cookies := GetAll(h, SetCookie);
    forall k | 0 <= k < |cookies| ensures CutSecureFlag(cookies[k]) == cookies[k] {
      CutSecureFlagSpec(cookies[k]);
    }
    var stripped := seq(|cookies|, k requires 0 <= k < |cookies| => CutSecureFlag(cookies[k]));
    assert stripped == cookies;
    SetAllCurrentValues(h, SetCookie);
  }

  /** The rewrite is the composition of its steps. */
  lemma RewriteResponseSteps(resp: Response, secureHosts: Registry, hostOf: string -> string)
    ensures var (h2, hosts) := StripLocation(StripEnforcementHeaders(resp.headers), secureHosts, hostOf);
      RewriteResponse(resp, secureHosts, hostOf) == (Response(StripCookies(StripCsp(h2)), StripBody(resp.body)), hosts)
  {
  }

  lemma EnforcementHeadersFixedPoint(h: HeaderList)
    requires forall x :: x in h ==> !SameName(x.name, StrictTransportSecurity) && !SameName(x.name, PublicKeyPins)
    ensures StripEnforcementHeaders(h) == h
  {
    RemoveAbsent(h, StrictTransportSecurity);
    RemoveAbsent(h, PublicKeyPins);
  }

  /* ---------------------------------------------------------------------
     Worked examples
     --------------------------------------------------------------------- */

  /** A directive match needs 25 characters and starts with `up`, in either case. */
  lemma DirectiveStartsWithUp(t: string)
    ensures DirectiveLength(t) > 0 ==> |t| >= |Directive| && Lower(t[0]) == 'u' && Lower(t[1]) == 'p'
  {
    if DirectiveLength(t) > 0 {
      assert LowerAll(t[..|Directive|])[0] == LowerAll(Directive)[0];
      assert LowerAll(t[..|Directive|])[1] == LowerAll(Directive)[1];
    }
  }

  /** No `u` of `a` is followed by a `p` inside `a`, ignoring case. */
  predicate NoDirectiveStart(a: string)
  {
    forall i | 0 <= i < |a| :: Lower(a[i]) != 'u' || (i + 1 < |a| && Lower(a[i + 1]) != 'p')
  }

  /** No directive match starts inside such an `a`, whatever follows it. */
  lemma NoDirectiveStartsIn(a: string, rest: string)
    requires NoDirectiveStart(a)
    ensures forall i | 0 <= i < |a| :: DirectiveLength((a + rest)[i..]) == 0
  {
    forall i | 0 <= i < |a|
      ensures DirectiveLength((a + rest)[i..]) == 0
    {
      DirectiveStartsWithUp((a + rest)[i..]);
      assert (a + rest)[i..][0] == a[i];
      if i + 1 < |a| {
        assert (a + rest)[i..][1] == a[i + 1];
      }
    }
  }

  /** Cutting removes one directive together with the maximal run of
      separators after it and keeps the text around it. */
  lemma CutDirectiveAround(a: string, seps: string, b: string)
    requires NoDirectiveStart(a) && NoDirectiveStart(b)
    requires forall k | 0 <= k < |seps| :: IsSeparator(seps[k])
    requires b == [] || !IsSeparator(b[0])
    ensures CutDirective(a + Directive + seps + b) == a + b
  {
    var t := Directive + seps + b;
    assert a + Directive + seps + b == a + t;
    CutCopiesPrefix(a, t);
    DirectiveMatchLength(seps, b);
    CutSkipsMatch(t);
    assert t[|Directive| + |seps|..] == b;
    CutCopiesPrefix(b, []);
    assert b + [] == b;
  }

  lemma CutCopiesPrefix(a: string, t: string)
    requires NoDirectiveStart(a)
    ensures CutDirective(a + t) == a + CutDirective(t)
  {
    NoDirectiveStartsIn(a, t);
    DeleteMatchesCopiesPrefix(a, t, DirectiveLength);
  }

  lemma CutSkipsMatch(t: string)
    requires DirectiveLength(t) > 0
    ensures CutDirective(t) == CutDirective(t[DirectiveLength(t)..])
  {
  }

  lemma DirectiveMatchLength(seps: string, b: string)
    requires forall k | 0 <= k < |seps| :: IsSeparator(seps[k])
    requires b == [] || !IsSeparator(b[0])
    ensures DirectiveLength(Directive + seps + b) == |Directive| + |seps|
  {
    var t := Directive + (seps + b);
    assert Directive + seps + b == t;
    PrefixOfConcat(Directive, seps + b);
    assert OccursAtIgnoringCase(t, Directive, 0);
    RunLengthOf(seps, b, IsSeparator);
  }

  lemma PrefixOfConcat(x: string, y: string)
    ensures (x + y)[..|x|] == x && (x + y)[|x|..] == y
  {
  }

  /** The header of the classic example loses the directive and the
      separator after it; its neighbours stay. */
  lemma CutDirectiveExample()
    ensures CutDirective("default-src 'self'; " + Directive + "; " + "script-src 'self'")
         == "default-src 'self'; " + "script-src 'self'"
  {
    ExampleNeighboursClean();
    ExampleSeparators();
    CutDirectiveAround("default-src 'self'; ", "; ", "script-src 'self'");
  }

  lemma ExampleNeighboursClean()
    ensures NoDirectiveStart("default-src 'self'; ")
    ensures NoDirectiveStart("script-src 'self'")
  {
  }

  lemma ExampleSeparators()
    ensures forall k | 0 <= k < |"; "| :: IsSeparator("; "[k])
    ensures !IsSeparator("script-src 'self'"[0])
  {
  }

  /** One character that differs from the directive, ignoring case, rules a match out. */
  lemma DirectiveMismatch(t: string, k: nat)
    requires k < |Directive| && k < |t| && Lower(t[k]) != Lower(Directive[k])
    ensures DirectiveLength(t) == 0
  {
    assert |Directive| <= |t| ==> LowerAll(t[..|Directive|])[k] == Lower(t[k]);
    assert LowerAll(Directive)[k] == Lower(Directive[k]);
  }

  /** Cutting the directive out of the middle of `upgrade-…insecure-requests`
      joins the two halves into a fresh directive. */
  lemma CutDirectiveNested()
    ensures CutDirective("upgrade-" + Directive + "insecure-requests") == Directive
  {
    CutAfterUpgradeDash("insecure-requests");
    Regroup("upgrade-", Directive, "insecure-requests");
    DirectiveHalves();
  }

  lemma Regroup(a: string, d: string, b: string)
    ensures a + d + b == a + (d + "" + b)
  {
  }

  lemma DirectiveHalves()
    ensures "upgrade-" + "insecure-requests" == Directive
  {
  }

  lemma CutAfterUpgradeDash(b: string)
    requires NoDirectiveStart(b) && (b == [] || !IsSeparator(b[0]))
    ensures CutDirective("upgrade-" + (Directive + "" + b)) == "upgrade-" + b
  {
    var t := Directive + "" + b;
    assert t[0] == 'u';
    UpgradeDashStartsNoMatch(t);
    DeleteMatchesCopiesPrefix("upgrade-", t, DirectiveLength);
    CutDirectiveLeading(b);
  }

  /** `upgrade-` followed by a `u` hides no match in its own eight characters. */
  lemma UpgradeDashStartsNoMatch(t: string)
    requires t != [] && t[0] == 'u'
    ensures forall i | 0 <= i < |"upgrade-"| :: DirectiveLength(("upgrade-" + t)[i..]) == 0
  {
    var a := "upgrade-";
    forall i | 0 <= i < |a|
      ensures DirectiveLength((a + t)[i..]) == 0
    {
      if i == 0 {
        DirectiveMismatch((a + t)[i..], 8);
      } else {
        DirectiveStartsWithUp((a + t)[i..]);
        assert (a + t)[i..][0] == a[i];
      }
    }
  }

  /** A leading directive with nothing to cut after it leaves just the rest. */
  lemma CutDirectiveLeading(b: string)
    requires NoDirectiveStart(b) && (b == [] || !IsSeparator(b[0]))
    ensures CutDirective(Directive + "" + b) == b
  {
    var t := Directive + "" + b;
    DirectiveMatchLength("", b);
    CutSkipsMatch(t);
    assert t[|Directive|..] == b;
    CutCopiesPrefix(b, []);
    assert b + [] == b;
  }

  /** The directive alone is cut to nothing. */
  lemma CutDirectiveWhole()
    ensures CutDirective(Directive) == ""
  {
    DirectiveMatchLength("", "");
    assert Directive + "" + "" == Directive;
  }

  /** So the CSP rewrite is not idempotent: a second pass can still cut. */
  lemma CutDirectiveNotIdempotent()
    ensures CutDirective(CutDirective("upgrade-" + Directive + "insecure-requests"))
         != CutDirective("upgrade-" + Directive + "insecure-requests")
  {
    CutDirectiveNested();
    CutDirectiveWhole();
  }

  /** A stretch without `;` starts no secure-flag match. */
  lemma CutFlagCopiesPrefix(a: string, t: string)
    requires forall k | 0 <= k < |a| :: a[k] != ';'
    ensures CutSecureFlag(a + t) == a + CutSecureFlag(t)
  {
    forall i | 0 <= i < |a|
      ensures SecureFlagLength((a + t)[i..]) == 0
    {
      assert (a + t)[i..][0] == a[i];
    }
    DeleteMatchesCopiesPrefix(a, t, SecureFlagLength);
  }

  lemma CutFlagSkipsMatch(t: string)
    requires SecureFlagLength(t) > 0
    ensures CutSecureFlag(t) == CutSecureFlag(t[SecureFlagLength(t)..])
  {
  }

  /** `;`, whitespace, `secure`, whitespace: the match takes all of it. */
  lemma SecureFlagMatchLength(ws: string, ws': string, b: string)
    requires forall k | 0 <= k < |ws| :: IsWhitespace(ws[k])
    requires forall k | 0 <= k < |ws'| :: IsWhitespace(ws'[k])
    requires b == [] || !IsWhitespace(b[0])
    ensures SecureFlagLength(";" + ws + Secure + ws' + b) == 1 + |ws| + |Secure| + |ws'|
  {
    var t := ";" + (ws + (Secure + (ws' + b)));
    assert ";" + ws + Secure + ws' + b == t;
    assert t[1..] == ws + (Secure + (ws' + b));
    RunLengthOf(ws, Secure + (ws' + b), IsWhitespace);
    assert t[1 + |ws|..] == Secure + (ws' + b);
    PrefixOfConcat(Secure, ws' + b);
    assert t[1 + |ws| + |Secure|..] == ws' + b;
    RunLengthOf(ws', b, IsWhitespace);
  }

  /** A `;` whose next word is not `secure` (compared case by case) is kept,
      and so is the rest when it holds no further `;`. */
  lemma CutFlagKeepsOtherAttribute(ws: string, w: string)
    requires forall k | 0 <= k < |ws| :: IsWhitespace(ws[k])
    requires w != [] && !IsWhitespace(w[0]) && !StartsWith(w, Secure)
    requires forall k | 0 <= k < |w| :: w[k] != ';'
    ensures CutSecureFlag(";" + ws + w) == ";" + ws + w
  {
    var t := ";" + (ws + w);
    assert ";" + ws + w == t;
    assert t[1..] == ws + w;
    RunLengthOf(ws, w, IsWhitespace);
    assert t[1 + |ws|..] == w;
    assert SecureFlagLength(t) == 0;
    CutFlagCopiesPrefix(ws + w, []);
    assert ws + w + [] == ws + w;
  }

  /** A flag after a `;`-free prefix is cut with the blanks around it. */
  lemma CutFlagAround(a: string, ws: string, ws': string, b: string)
    requires forall k | 0 <= k < |a| :: a[k] != ';'
    requires forall k | 0 <= k < |ws| :: IsWhitespace(ws[k])
    requires forall k | 0 <= k < |ws'| :: IsWhitespace(ws'[k])
    requires b == [] || !IsWhitespace(b[0])
    ensures CutSecureFlag(a + (";" + ws + Secure + ws' + b)) == a + CutSecureFlag(b)
  {
    var t := ";" + ws + Secure + ws' + b;
    CutFlagCopiesPrefix(a, t);
    SecureFlagMatchLength(ws, ws', b);
    CutFlagSkipsMatch(t);
    assert t[1 + |ws| + |Secure| + |ws'|..] == b;
  }

  /** The flag and the blank before it go; the other attributes stay. */
  lemma CutSecureFlagExample()
    ensures CutSecureFlag("id=1; secure; HttpOnly") == "id=1; HttpOnly"
  {
    CutFlagAround("id=1", " ", "", ";" + " " + "HttpOnly");
    CutFlagKeepsOtherAttribute(" ", "HttpOnly");
    CookieExampleSpelling();
  }

  lemma CookieExampleSpelling()
    ensures "id=1; secure; HttpOnly" == "id=1" + (";" + " " + Secure + "" + (";" + " " + "HttpOnly"))
    ensures "id=1; HttpOnly" == "id=1" + (";" + " " + "HttpOnly")
    ensures "id=1; Secure" == "id=1" + (";" + " " + "Secure")
  {
  }

  /** The pattern is case-sensitive: a capitalised `Secure` survives. */
  lemma CutSecureFlagKeepsCapitalised()
    ensures CutSecureFlag("id=1; Secure") == "id=1; Secure"
  {
    CutFlagCopiesPrefix("id=1", ";" + " " + "Secure");
    CutFlagKeepsOtherAttribute(" ", "Secure");
    CookieExampleSpelling();
  }

  /** A character where no flag starts is kept. */
  lemma CutFlagKeepsChar(t: string)
    requires t != [] && SecureFlagLength(t) == 0
    ensures CutSecureFlag(t) == [t[0]] + CutSecureFlag(t[1..])
  {
  }

  /** Cutting a flag out of the middle of `;secu…re` joins the halves
      into a fresh `;secure`, which a second pass cuts again: the cookie
      rewrite is not idempotent either. */
  lemma CutSecureFlagNotIdempotent()
    ensures CutSecureFlag("x;secu;securere") == "x;secure"
    ensures CutSecureFlag("x;secure") == "x"
  {
    SplitFlagSpelling();
    CutSplitFlag();
    CutFlagAround("x", "", "", "");
  }

  lemma SplitFlagSpelling()
    ensures "x;secu;securere" == "x" + (";" + ("secu" + (";" + "" + Secure + "" + "re")))
    ensures "x" + (";" + ("secu" + "re")) == "x;secure" == "x" + (";" + "" + Secure + "" + "")
  {
  }

  lemma CutSplitFlag()
    ensures CutSecureFlag("x" + (";" + ("secu" + (";" + "" + Secure + "" + "re")))) == "x" + (";" + ("secu" + "re"))
  {
    var t := ";" + ("secu" + (";" + "" + Secure + "" + "re"));
    CutFlagCopiesPrefix("x", t);
    CutSplitMiddle();
  }

  /** The `;secu` half stays; the flag after it goes. */
  lemma CutSplitMiddle()
    ensures CutSecureFlag(";" + ("secu" + (";" + "" + Secure + "" + "re"))) == ";" + ("secu" + "re")
  {
    var flag := ";" + "" + Secure + "" + "re";
    var t := ";" + ("secu" + flag);
    SplitFlagNoMatch(flag);
    CutFlagKeepsChar(t);
    assert t[1..] == "secu" + flag;
    CutFlagCopiesPrefix("secu", flag);
    CutSplitTail();
  }

  /** The trailing flag is cut, leaving `re`. */
  lemma CutSplitTail()
    ensures CutSecureFlag(";" + "" + Secure + "" + "re") == "re"
  {
    assert ";" + "" + Secure + "" + "re" == "" + (";" + "" + Secure + "" + "re");
    CutFlagAround("", "", "", "re");
    CutFlagCopiesPrefix("re", "");
    assert "re" + "" == "re";
  }

  /** `;secu` followed by `;` is no flag: the fifth letter is not `r`. */
  lemma SplitFlagNoMatch(rest: string)
    requires rest != [] && rest[0] == ';'
    ensures SecureFlagLength(";" + ("secu" + rest)) == 0
  {
    var t := ";" + ("secu" + rest);
    assert t[1] == 's';
    assert t[5] == ';';
    assert |Secure| <= |t[1..]| ==> t[1..][..|Secure|][4] == t[5];
  }
}
