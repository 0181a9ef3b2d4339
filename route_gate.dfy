/** The admin route gate (middleware.ts): every request whose path starts
    with `/admin` needs an `auth-token` cookie that the token verifier
    accepts, or it is redirected to the public entry page. The verifier is
    a parameter. */
module RouteGate {
  import opened Wrappers

  /** What a verified token carries. */
  datatype Claims = Claims(userId: string)

  /** Redirect to a path, or let the request through unchanged. */
  datatype Decision = Redirect(location: string) | Continue

  const AdminPrefix: string := "/admin"
  const TokenCookie: string := "auth-token"
  const EntryPoint: string := "/"

  /** The request carries a non-empty `auth-token` cookie that `verify` accepts. */
  predicate Authorized(cookies: map<string, string>, verify: string -> Option<Claims>) {
    TokenCookie in cookies && cookies[TokenCookie] != "" && verify(cookies[TokenCookie]).Some?
  }

  function Middleware(pathname: string, cookies: map<string, string>, verify: string -> Option<Claims>): (d: Decision)
    ensures d.Redirect? ==> d.location == EntryPoint
    ensures d == Continue <==> !(AdminPrefix <= pathname) || Authorized(cookies, verify)
  {
    if AdminPrefix <= pathname then
      var token := if TokenCookie in cookies then Some(cookies[TokenCookie]) else None;
      if token.None? || token.value == "" || verify(token.value).None? then
        Redirect(EntryPoint)
      else
        Continue
    else
      Continue
  }

  /** A path outside `/admin` passes, whatever the cookies. */
  lemma PublicPathPasses(pathname: string, cookies: map<string, string>, verify: string -> Option<Claims>)
    requires !(AdminPrefix <= pathname)
    ensures Middleware(pathname, cookies, verify) == Continue
  {
  }

  /** An admin path without a token, or with an empty one, is redirected to
      `/` without the token being verified. */
  lemma MissingTokenRedirects(pathname: string, cookies: map<string, string>, verify: string -> Option<Claims>)
    requires AdminPrefix <= pathname
    requires TokenCookie !in cookies || cookies[TokenCookie] == ""
    ensures Middleware(pathname, cookies, verify) == Redirect("/")
  {
  }

  /** An admin path whose token the verifier rejects is redirected to `/`. */
  lemma RejectedTokenRedirects(pathname: string, cookies: map<string, string>, verify: string -> Option<Claims>)
    requires AdminPrefix <= pathname
    requires TokenCookie in cookies && verify(cookies[TokenCookie]).None?
    ensures Middleware(pathname, cookies, verify) == Redirect("/")
  {
  }

  /** An admin path whose token verifies passes. */
  lemma VerifiedTokenPasses(pathname: string, cookies: map<string, string>, verify: string -> Option<Claims>)
    requires AdminPrefix <= pathname
    requires TokenCookie in cookies && cookies[TokenCookie] != "" && verify(cookies[TokenCookie]).Some?
    ensures Middleware(pathname, cookies, verify) == Continue
  {
  }

  /** The prefix test is on characters, not path segments: `/adminX` is
      gated like `/admin/x`, and `/Admin` is not. */
  lemma PlainStringPrefix(verify: string -> Option<Claims>)
    ensures Middleware("/adminX", map[], verify) == Redirect("/")
    ensures Middleware("/admin", map[], verify) == Redirect("/")
    ensures Middleware("/Admin", map[], verify) == Continue
    ensures Middleware("/", map[], verify) == Continue
  {
    assert AdminPrefix <= "/adminX";
    assert !(AdminPrefix <= "/Admin") by {
      assert "/Admin"[1] != AdminPrefix[1];
    }
  }

  /** The decision depends only on the path, the `auth-token` cookie and
      the verifier's answer for it; other cookies do not matter. */
  lemma DependsOnlyOnToken(pathname: string, c1: map<string, string>, c2: map<string, string>,
                           v1: string -> Option<Claims>, v2: string -> Option<Claims>)
    requires TokenCookie in c1 <==> TokenCookie in c2
    requires TokenCookie in c1 ==>
               c1[TokenCookie] == c2[TokenCookie] && v1(c1[TokenCookie]).Some? == v2(c2[TokenCookie]).Some?
    ensures Middleware(pathname, c1, v1) == Middleware(pathname, c2, v2)
  {
  }
}
