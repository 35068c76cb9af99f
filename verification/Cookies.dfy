/** The browser's side of the two authentication cookies (services/tokenService), with the
    expiry rules of section 5.3 of RFC 6265. */
module Cookies {
  import opened Prelude
  import opened Jwt

  datatype CookieName = Authorization | RefreshToken

  /** Without an expiry a cookie lasts as long as the browser. */
  datatype Cookie = Cookie(value: Token, expires: Option<int>)

  type Jar = map<CookieName, Cookie>

  /** What a Set-Cookie with this Max-Age does: Go leaves the attribute out when it is 0 and
      asks for removal when it is negative. */
  function WithCookie(jar: Jar, name: CookieName, value: Token, maxAge: int, now: int): Jar {
    if maxAge < 0 then jar - {name}
    else if maxAge == 0 then jar[name := Cookie(value, None)]
    else jar[name := Cookie(value, Some(now + maxAge * SECOND))]
  }

  function Cleared(jar: Jar): Jar {
    jar - {Authorization, RefreshToken}
  }

  /** The cookie a request carries, if the jar still holds it. */
  function Sent(jar: Jar, name: CookieName, now: int): Option<Token> {
    if name in jar && (jar[name].expires.None? || now < jar[name].expires.value) then Some(jar[name].value) else None
  }

  /** Is a cookie set at `since` for a lifetime still there at `t`? One of whole seconds is
      kept while they last, one below a second as long as the browser runs, and a negative
      one removes the cookie. */
  predicate Kept(lifetime: int, since: int, t: int) {
    if lifetime >= SECOND then t < since + WholeSeconds(lifetime) else lifetime > -SECOND
  }

  /** What the browser sends under a name, at any time, is this token while it is kept. */
  ghost predicate Holds(jar: Jar, name: CookieName, token: Token, lifetime: int, since: int) {
    forall t: int :: Sent(jar, name, t) == if Kept(lifetime, since, t) then Some(token) else None
  }

  ghost predicate SameSent(jar: Jar, other: Jar, name: CookieName) {
    forall t: int :: Sent(jar, name, t) == Sent(other, name, t)
  }

  lemma SetCookieHolds(jar: Jar, name: CookieName, token: Token, lifetime: int, now: int)
    ensures var after := WithCookie(jar, name, token, MaxAge(lifetime), now);
            && Holds(after, name, token, lifetime, now)
            && forall other: CookieName :: other != name ==> SameSent(after, jar, other)
  {
    LongestMaxAge(lifetime);
    hide MaxAge, WholeSeconds;
  }

  lemma LongestMaxAge(lifetime: int)
    ensures lifetime >= SECOND ==> MaxAge(lifetime) > 0 && MaxAge(lifetime) * SECOND == WholeSeconds(lifetime)
    ensures -SECOND < lifetime < SECOND ==> MaxAge(lifetime) == 0
    ensures lifetime <= -SECOND ==> MaxAge(lifetime) < 0
  {
  }

  class CookieJar {
    var cookies: Jar

    constructor ()
      ensures cookies == map[]
    {
      cookies := map[];
    }
  }

  class TokenService {
    const config: Config

    constructor (config: Config)
      ensures this.config == config
    {
      this.config := config;
    }

    method SetAccessCookie(jar: CookieJar, token: Token, now: int)
      modifies jar
      ensures Holds(jar.cookies, Authorization, token, config.accessLifetime, now)
      ensures SameSent(jar.cookies, old(jar.cookies), RefreshToken)
      ensures jar.cookies == WithCookie(old(jar.cookies), Authorization, token, MaxAge(config.accessLifetime), now)
    {
      SetCookieHolds(jar.cookies, Authorization, token, config.accessLifetime, now);
      jar.cookies := WithCookie(jar.cookies, Authorization, token, MaxAge(config.accessLifetime), now);
    }

    method SetRefreshCookie(jar: CookieJar, token: Token, now: int)
      modifies jar
      ensures Holds(jar.cookies, RefreshToken, token, config.refreshLifetime, now)
      ensures SameSent(jar.cookies, old(jar.cookies), Authorization)
      ensures jar.cookies == WithCookie(old(jar.cookies), RefreshToken, token, MaxAge(config.refreshLifetime), now)
    {
      SetCookieHolds(jar.cookies, RefreshToken, token, config.refreshLifetime, now);
      jar.cookies := WithCookie(jar.cookies, RefreshToken, token, MaxAge(config.refreshLifetime), now);
    }

    method ClearAuthCookies(jar: CookieJar)
      modifies jar
      ensures jar.cookies == Cleared(old(jar.cookies))
    {
      ClearCookie(jar, Authorization);
      ClearCookie(jar, RefreshToken);
    }

    method ClearCookie(jar: CookieJar, name: CookieName)
      modifies jar
      ensures jar.cookies == old(jar.cookies) - {name}
    {
      jar.cookies := jar.cookies - {name};
    }
  }

  // ---------- a cookie lasts at least as long as its token ----------

  /** However late after signing the cookie arrives, the browser still sends it at every
      moment from then on at which the token would still verify. */
  ghost predicate OutlivesToken(lifetime: int) {
    forall user, kind, name, signedAt: int, arrives: int, t: int ::
      user != "" && signedAt <= arrives <= t && t < SignToken(user, kind, lifetime, signedAt).value.expiresAt ==>
        Sent(WithCookie(map[], name, SignToken(user, kind, lifetime, signedAt).value, MaxAge(lifetime), arrives), name, t)
        == Some(SignToken(user, kind, lifetime, signedAt).value)
  }

  /** True of exactly the lifetimes that are whole seconds or shorter than one second. */
  lemma CookieOutlivesTokenIff(lifetime: int)
    ensures OutlivesToken(lifetime) <==> lifetime < SECOND || lifetime % SECOND == 0
  {
    if lifetime >= SECOND && lifetime % SECOND != 0 {
      // signed so late in a second that the expiry date reaches the next one
      var signedAt := SECOND - lifetime % SECOND;
      CutShort(lifetime, signedAt);
    }
  }

  /** The two configured lifetimes are among them. */
  lemma DefaultCookiesOutliveTokens()
    ensures OutlivesToken(DEFAULTS.accessLifetime) && OutlivesToken(DEFAULTS.refreshLifetime)
  {
    CookieOutlivesTokenIff(DEFAULTS.accessLifetime);
    CookieOutlivesTokenIff(DEFAULTS.refreshLifetime);
  }

  lemma CutShort(lifetime: int, signedAt: int)
    requires lifetime >= SECOND && lifetime % SECOND != 0 && signedAt == SECOND - lifetime % SECOND
    ensures !OutlivesToken(lifetime)
  {
    var token := SignToken("u", Access, lifetime, signedAt).value;
    var q := lifetime / SECOND;
    assert lifetime == q * SECOND + lifetime % SECOND;
    assert signedAt + lifetime == (q + 1) * SECOND;
    assert (signedAt + lifetime) % SECOND == 0;
    assert token.expiresAt == (q + 1) * SECOND;
    assert MaxAge(lifetime) == q && q > 0;
    var t := signedAt + q * SECOND;
    assert t < token.expiresAt;
    assert Sent(WithCookie(map[], Authorization, token, q, signedAt), Authorization, t) == None;
  }
}
