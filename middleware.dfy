/**
 * The request-time route guard: which paths it runs on (`config.matcher`)
 * and the redirect it answers with, decided from the presence of the
 * `authUser` cookie and the request path.
 */
module Middleware {

  datatype Response = Redirect(target: string) | Next

  datatype Request = Request(pathname: string, cookies: map<string, string>)

  /** `['/login', '/signup'].includes(pathname)`: exact matches only. */
  predicate IsPublicAuthRoute(pathname: string) {
    pathname == "/login" || pathname == "/signup"
  }

  /** The `startsWith` tests on the application routes: raw prefixes, so `/postsX` is one too. */
  predicate IsAppRoute(pathname: string) {
    "/dashboard" <= pathname || "/editor" <= pathname || "/posts" <= pathname || "/profile" <= pathname
  }

  /** A prefix fixes the characters it covers. */
  lemma PrefixChar(prefix: string, s: string, i: nat)
    requires prefix <= s && i < |prefix|
    ensures s[i] == prefix[i]
  {
    assert s[..|prefix|] == prefix;
  }

  /** A string that disagrees with `prefix` at some covered index does not start with it. */
  lemma NotPrefixAt(prefix: string, s: string, i: nat)
    requires i < |prefix| && (i >= |s| || s[i] != prefix[i])
    ensures !(prefix <= s)
  {
    if |prefix| <= |s| {
      assert s[..|prefix|][i] == s[i];
    }
  }

  /** `/login` is not an application route (the raw prefix tests all fail on it). */
  lemma LoginIsNotAppRoute()
    ensures !IsAppRoute("/login")
  {
    NotPrefixAt("/posts", "/login", 1);
  }

  /** The four rules of `middleware`, tried in order; the first that applies answers. */
  function Decide(isAuthenticated: bool, pathname: string): (r: Response)
    ensures r == Next || r == Redirect("/dashboard") || r == Redirect("/login")
    ensures r == Redirect("/dashboard") <==>
      isAuthenticated && (IsPublicAuthRoute(pathname) || pathname == "/")
    ensures r == Redirect("/login") <==>
      !isAuthenticated && (IsAppRoute(pathname) || pathname == "/")
  {
    if isAuthenticated && IsPublicAuthRoute(pathname) then Redirect("/dashboard")
    else if !isAuthenticated && IsAppRoute(pathname) then Redirect("/login")
    else if !isAuthenticated && pathname == "/" then Redirect("/login")
    else if isAuthenticated && pathname == "/" then Redirect("/dashboard")
    else Next
  }

  /** `middleware(request)`: authenticated means only that an `authUser` cookie is present. */
  function HandleRequest(request: Request): (r: Response)
    ensures "authUser" in request.cookies ==> r != Redirect("/login")
    ensures "authUser" !in request.cookies ==> r != Redirect("/dashboard")
    ensures r.Redirect? ==> IsPublicAuthRoute(request.pathname) || IsAppRoute(request.pathname) || request.pathname == "/"
  {
    Decide("authUser" in request.cookies, request.pathname)
  }

  /** The cookie's value never matters, only whether it is there. */
  lemma OnlyCookiePresenceMatters(a: Request, b: Request)
    requires a.pathname == b.pathname
    requires ("authUser" in a.cookies) == ("authUser" in b.cookies)
    ensures HandleRequest(a) == HandleRequest(b)
  {
  }

  /** Following a redirect with the same cookie never redirects again. */
  lemma NoRedirectLoop(isAuthenticated: bool, pathname: string)
    ensures Decide(isAuthenticated, pathname).Redirect? ==>
      Decide(isAuthenticated, Decide(isAuthenticated, pathname).target) == Next
  {
    LoginIsNotAppRoute();
  }

  /** The route tests are exact for the auth pages and raw prefixes for the application routes. */
  lemma RouteTestExamples()
    ensures Decide(false, "/postsX") == Redirect("/login")
    ensures Decide(false, "/dashboard/trips") == Redirect("/login")
    ensures Decide(true, "/login/") == Next
    ensures Decide(false, "/login") == Next
    ensures Decide(true, "/posts") == Next
  {
    LoginIsNotAppRoute();
  }

  // ---------------------------------------------------------------------
  // config.matcher: '/((?!api|_next/static|_next/image|favicon.ico).*)'
  // ---------------------------------------------------------------------

  /**
   * The negative lookahead as written: in a regular expression the `.` of
   * `favicon.ico` matches any one character, so `faviconXico` is excluded too.
   */
  predicate ExcludedAsWritten(rest: string) {
    "api" <= rest || "_next/static" <= rest || "_next/image" <= rest
    || (|rest| >= 11 && rest[..7] == "favicon" && rest[8..11] == "ico")
  }

  /** `"/" + word` starts `pathname` exactly when `word` starts what follows its leading `/`. */
  lemma SlashPrefix(word: string, pathname: string)
    ensures "/" + word <= pathname <==> |pathname| >= 1 && pathname[0] == '/' && word <= pathname[1..]
  {
    if "/" + word <= pathname {
      assert pathname[0] == ("/" + word)[0];
      assert pathname[1..][..|word|] == pathname[..|word| + 1][1..] == word;
    }
    if |pathname| >= 1 && pathname[0] == '/' && word <= pathname[1..] {
      assert pathname[..|word| + 1] == [pathname[0]] + pathname[1..][..|word|];
    }
  }

  /** The literal `favicon.ico` is one of the names the wildcard pattern excludes. */
  lemma FaviconLiteralExcluded(pathname: string)
    ensures |pathname| >= 1 && "favicon.ico" <= pathname[1..] ==> ExcludedAsWritten(pathname[1..])
  {
    if |pathname| >= 1 && "favicon.ico" <= pathname[1..] {
      var rest := pathname[1..];
      var head := rest[..11];
      assert head == "favicon.ico";
      assert rest[..7] == head[..7] && rest[8..11] == head[8..11];
    }
  }

  /** `SlashPrefix` for the leading `/` and the four excluded names. */
  lemma SlashPrefixes(pathname: string)
    ensures "/" <= pathname <==> |pathname| >= 1 && pathname[0] == '/'
    ensures "/api" <= pathname <==> |pathname| >= 1 && pathname[0] == '/' && "api" <= pathname[1..]
    ensures "/_next/static" <= pathname <==> |pathname| >= 1 && pathname[0] == '/' && "_next/static" <= pathname[1..]
    ensures "/_next/image" <= pathname <==> |pathname| >= 1 && pathname[0] == '/' && "_next/image" <= pathname[1..]
    ensures "/favicon.ico" <= pathname <==> |pathname| >= 1 && pathname[0] == '/' && "favicon.ico" <= pathname[1..]
  {
    SlashPrefix("", pathname);
    assert "/" + "" == "/";
    SlashPrefix("api", pathname);
    assert "/" + "api" == "/api";
    SlashPrefix("_next/static", pathname);
    assert "/" + "_next/static" == "/_next/static";
    SlashPrefix("_next/image", pathname);
    assert "/" + "_next/image" == "/_next/image";
    SlashPrefix("favicon.ico", pathname);
    assert "/" + "favicon.ico" == "/favicon.ico";
  }

  /**
   * The matcher as written: a leading `/` not followed by an excluded prefix.
   * API routes, static files, image optimization and the favicon are skipped.
   */
  function MatchesAsWritten(pathname: string): (m: bool)
    ensures m ==> "/" <= pathname
    ensures "/api" <= pathname ==> !m
    ensures "/_next/static" <= pathname ==> !m
    ensures "/_next/image" <= pathname ==> !m
    ensures "/favicon.ico" <= pathname ==> !m
  {
    SlashPrefixes(pathname);
    FaviconLiteralExcluded(pathname);
    |pathname| >= 1 && pathname[0] == '/' && !ExcludedAsWritten(pathname[1..])
  }

  /**
   * The matcher with `favicon\.ico` read literally: a path is matched exactly
   * when it starts with `/` and with none of `/api`, `/_next/static`,
   * `/_next/image` and `/favicon.ico`.
   */
  function Matches(pathname: string): (m: bool)
    ensures m <==>
      "/" <= pathname && !("/api" <= pathname) && !("/_next/static" <= pathname)
      && !("/_next/image" <= pathname) && !("/favicon.ico" <= pathname)
  {
    SlashPrefixes(pathname);
    |pathname| >= 1 && pathname[0] == '/'
    && !("api" <= pathname[1..]) && !("_next/static" <= pathname[1..])
    && !("_next/image" <= pathname[1..]) && !("favicon.ico" <= pathname[1..])
  }

  /** A path whose text after `/` is empty or starts with none of `a`, `_`, `f` is matched. */
  lemma MatchedByHead(pathname: string)
    requires |pathname| >= 1 && pathname[0] == '/'
    requires |pathname| == 1 || (pathname[1] != 'a' && pathname[1] != '_' && pathname[1] != 'f')
    ensures Matches(pathname) && MatchesAsWritten(pathname)
  {
    var rest := pathname[1..];
    NotPrefixAt("api", rest, 0);
    NotPrefixAt("_next/static", rest, 0);
    NotPrefixAt("_next/image", rest, 0);
    NotPrefixAt("favicon.ico", rest, 0);
    if |rest| >= 11 {
      assert rest[..7][0] == rest[0];
    }
  }

  /** `/faviconXico` shows the difference: excluded as written, guarded as intended. */
  lemma FaviconDotIsWildcard()
    ensures !MatchesAsWritten("/faviconXico")
    ensures Matches("/faviconXico")
  {
    var rest := "/faviconXico"[1..];
    assert rest == "faviconXico";
    assert rest[..7] == "favicon" && rest[8..11] == "ico";
    NotPrefixAt("favicon.ico", rest, 7);
    NotPrefixAt("api", rest, 0);
    NotPrefixAt("_next/static", rest, 0);
    NotPrefixAt("_next/image", rest, 0);
  }

  /** The two matchers differ only on `/favicon?ico...` where `?` is not a dot. */
  lemma MatchersDifferOnlyOnFavicon(pathname: string)
    requires MatchesAsWritten(pathname) != Matches(pathname)
    ensures !MatchesAsWritten(pathname) && Matches(pathname)
    ensures |pathname| >= 12 && pathname[1..8] == "favicon" && pathname[8] != '.'
    ensures pathname[9..12] == "ico"
  {
    var rest := pathname[1..];
    assert |rest| >= 11 && rest[..7] == "favicon" && rest[8..11] == "ico";
    assert rest[..11] == rest[..7] + [rest[7]] + rest[8..11];
    assert rest[..7] == pathname[1..8];
    assert rest[8..11] == pathname[9..12];
  }

  /** `middleware` behind its matcher: requests the matcher skips pass through. */
  function Guard(request: Request): (r: Response)
    ensures !Matches(request.pathname) ==> r == Next
    ensures Matches(request.pathname) ==> r == HandleRequest(request)
  {
    if Matches(request.pathname) then HandleRequest(request) else Next
  }

  /** `middleware` behind `config.matcher` as the regular expression is written. */
  function GuardAsWritten(request: Request): (r: Response)
    ensures !MatchesAsWritten(request.pathname) ==> r == Next
    ensures MatchesAsWritten(request.pathname) ==> r == HandleRequest(request)
  {
    if MatchesAsWritten(request.pathname) then HandleRequest(request) else Next
  }

  /**
   * The wildcard dot changes no response: the paths only the as-written
   * matcher skips are ones no rule redirects.
   */
  lemma GuardAsWrittenAgrees(request: Request)
    ensures GuardAsWritten(request) == Guard(request)
  {
    var p := request.pathname;
    if MatchesAsWritten(p) != Matches(p) {
      MatchersDifferOnlyOnFavicon(p);
      assert p[1] == p[1..8][0] == 'f';
      NotPrefixAt("/dashboard", p, 1);
      NotPrefixAt("/editor", p, 1);
      NotPrefixAt("/posts", p, 1);
      NotPrefixAt("/profile", p, 1);
      assert !IsPublicAuthRoute(p) && p != "/";
    }
  }

  /** Every path the rules care about is inside both matchers. */
  lemma GuardedRoutesMatched(pathname: string)
    requires IsPublicAuthRoute(pathname) || IsAppRoute(pathname) || pathname == "/"
    ensures Matches(pathname) && MatchesAsWritten(pathname)
  {
    var route :=
      if "/dashboard" <= pathname then "/dashboard"
      else if "/editor" <= pathname then "/editor"
      else if "/posts" <= pathname then "/posts"
      else if "/profile" <= pathname then "/profile"
      else pathname;
    assert route <= pathname;
    assert route in ["/dashboard", "/editor", "/posts", "/profile", "/login", "/signup", "/"];
    PrefixChar(route, pathname, 0);
    if |route| > 1 {
      PrefixChar(route, pathname, 1);
    } else {
      assert pathname == "/";
    }
    MatchedByHead(pathname);
  }

  /** The guard redirects to a page where, with the same cookies, it lets the request through. */
  lemma GuardHasNoRedirectLoop(request: Request)
    ensures Guard(request).Redirect? ==>
      Guard(Request(Guard(request).target, request.cookies)) == Next
  {
    var r := Guard(request);
    if r.Redirect? {
      GuardedRoutesMatched(r.target);
      NoRedirectLoop("authUser" in request.cookies, request.pathname);
    }
  }
}
