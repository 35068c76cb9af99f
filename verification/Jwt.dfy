/** Tokens and their lifetimes (config/jwt.go). The signature is ideal: a token verifies
    only if it was signed. Times are nanoseconds since Go's zero time. */
module Jwt {
  import opened Prelude

  const SECOND: int := 1_000_000_000

  datatype Kind = Access | Refresh

  /** The claims; equal claims sign to equal strings. Dates are whole seconds. */
  datatype Token = Token(user: string, kind: Kind, issuedAt: int, expiresAt: int)

  datatype Config = Config(accessLifetime: int, refreshLifetime: int)

  const DEFAULTS: Config := Config(15 * 60 * SECOND, 7 * 24 * 3600 * SECOND)

  /** NumericDate keeps whole seconds. */
  function WholeSeconds(t: int): (r: int)
    ensures r <= t < r + SECOND && r % SECOND == 0
  {
    t - t % SECOND
  }

  function SignToken(user: string, kind: Kind, lifetime: int, now: int): Option<Token> {
    if user == "" then None
    else Some(Token(user, kind, WholeSeconds(now), WholeSeconds(now + lifetime)))
  }

  function SignAccessToken(c: Config, user: string, now: int): Option<Token> {
    SignToken(user, Access, c.accessLifetime, now)
  }

  function SignRefreshToken(c: Config, user: string, now: int): Option<Token> {
    SignToken(user, Refresh, c.refreshLifetime, now)
  }

  /** `signed` is every token ever signed with the key. */
  function VerifyToken(signed: set<Token>, t: Token, kind: Kind, now: int): Option<string> {
    if t in signed && now < t.expiresAt && t.user != "" && t.kind == kind then Some(t.user) else None
  }

  /** Go's duration division truncates toward zero. */
  function MaxAge(lifetime: int): int {
    if lifetime >= 0 then lifetime / SECOND else -(-lifetime / SECOND)
  }

  lemma NobodySignsNothing(user: string, kind: Kind, lifetime: int, now: int)
    ensures SignToken(user, kind, lifetime, now).None? <==> user == ""
  {
  }

  /** A token is accepted back for its own kind and user, and for no longer than its
      lifetime. */
  lemma SignedTokenVerifies(user: string, kind: Kind, lifetime: int, now: int, signed: set<Token>, other: Kind, t: int)
    requires user != ""
    ensures var token := SignToken(user, kind, lifetime, now).value;
            && (VerifyToken(signed + {token}, token, kind, t) == Some(user) <==> t < WholeSeconds(now + lifetime))
            && (other != kind ==> VerifyToken(signed + {token}, token, other, t) == None)
            && token.issuedAt <= now < token.issuedAt + SECOND
            && (t >= now + lifetime ==> VerifyToken(signed + {token}, token, kind, t) == None)
  {
  }
}
