/** Sign-up, login, refresh, logout and the check in front of every other request
    (server/handlers/auth_handler.go, server/middleware/middleware.go). Password hashing is
    ideal but for what bcrypt makes of its input: passwords match when they give the same
    key. Strings are bytes here, one char each. */
module AuthHandlers {
  import opened Prelude
  import opened Jwt
  import opened Cookies

  /** `password` is the one the stored hash was made from. */
  datatype User = User(id: string, email: string, password: string)

  datatype AuthReply =
    | Refused(code: int)
    | SignedUp
    | LoggedIn(user: string)
    | Refreshed(user: string)
    | LoggedOut
    | Allowed(user: string)

  // ---------- passwords ----------

  /** The longest password that can be hashed, and the length of a key. */
  const KEY_LENGTH: nat := 72

  /** `s` again and again, cut to length `n`. */
  function Repeated(s: string, n: nat): (r: string)
    requires s != []
    ensures |r| == n
  {
    if n <= |s| then s[..n] else s + Repeated(s, n - |s|)
  }

  /** The password with its terminating NUL, repeated or cut to the length of a key. */
  function KeyOf(password: string): string {
    Repeated(password + "\0", KEY_LENGTH)
  }

  predicate Matches(known: string, given: string) {
    KeyOf(known) == KeyOf(given)
  }

  predicate NoNul(s: string) {
    forall i :: 0 <= i < |s| ==> s[i] != '\0'
  }

  /** As far as both go, the key reads like `s`. */
  predicate StartsLike(key: string, s: string) {
    forall i :: 0 <= i < |s| && i < |key| ==> key[i] == s[i]
  }

  /** The key repeats itself after `n` characters. */
  predicate Period(key: string, n: nat) {
    forall i :: 0 <= i && i + n < |key| ==> key[i + n] == key[i]
  }

  lemma {:induction false} ShorterRepeated(s: string, m: nat, n: nat)
    requires s != [] && m <= n
    ensures Repeated(s, m) == Repeated(s, n)[..m]
    decreases n
  {
    if |s| < m {
      ShorterRepeated(s, m - |s|, n - |s|);
    }
  }

  lemma RepeatedRepeats(s: string, n: nat)
    requires s != []
    ensures StartsLike(Repeated(s, n), s) && Period(Repeated(s, n), |s|)
  {
    if n > |s| {
      ShorterRepeated(s, n - |s|, n);
    }
  }

  /** Nothing else starts like `s` and has its length for a period. */
  lemma {:induction false} RepeatedIsUnique(s: string, key: string)
    requires s != [] && StartsLike(key, s) && Period(key, |s|)
    ensures key == Repeated(s, |key|)
    decreases |key|
  {
    if |key| > |s| {
      var rest := key[|s|..];
      forall i | 0 <= i < |rest| ensures rest[i] == key[i] {
        assert key[i + |s|] == key[i];
      }
      forall i | 0 <= i && i + |s| < |rest| ensures rest[i + |s|] == rest[i] {
        assert key[i + |s| + |s|] == key[i + |s|];
      }
      RepeatedIsUnique(s, rest);
      assert key[..|s|] == s;
      assert key == s + rest;
    }
  }

  /** A password is accepted for the one signed up with if and only if, with its NUL, it
      reads like the key of that one and the key repeats itself after it. */
  lemma MatchesIff(known: string, given: string)
    ensures Matches(known, given) <==>
            StartsLike(KeyOf(known), given + "\0") && Period(KeyOf(known), |given| + 1)
  {
    hide Repeated, StartsLike, Period;
    RepeatedRepeats(given + "\0", KEY_LENGTH);
    if StartsLike(KeyOf(known), given + "\0") && Period(KeyOf(known), |given| + 1) {
      RepeatedIsUnique(given + "\0", KeyOf(known));
    }
  }

  /** When NUL occurs only at the end of `s`, every NUL ends a period. */
  lemma {:induction false} NulEndsPeriod(s: string, n: nat, i: nat)
    requires s != [] && NoNul(s[..|s| - 1]) && i < n && Repeated(s, n)[i] == '\0'
    ensures Period(Repeated(s, n), i + 1)
    decreases n
  {
    hide Period;
    var m := |s|;
    if i < m {
      FirstNul(s, n, i);
      RepeatedRepeats(s, n);
    } else {
      NulEndsPeriod(s, n - m, i - m);
      ShorterRepeated(s, n - m, n);
      PeriodLater(Repeated(s, n), Repeated(s, n - m), m, i - m + 1);
    }
  }

  lemma FirstNul(s: string, n: nat, i: nat)
    requires s != [] && NoNul(s[..|s| - 1]) && i < n && i < |s| && Repeated(s, n)[i] == '\0'
    ensures i == |s| - 1
  {
    assert Repeated(s, n)[i] == s[i];
    assert forall j :: 0 <= j < |s| - 1 ==> s[..|s| - 1][j] == s[j];
  }

  lemma PeriodLater(key: string, rest: string, m: nat, p: nat)
    requires m <= |key| && rest == key[m..] && rest == key[..|rest|] && Period(rest, p)
    ensures Period(key, m + p)
  {
    forall j | 0 <= j && j + (m + p) < |key| ensures key[j + (m + p)] == key[j] {
      assert key[j + (m + p)] == rest[j + p] == rest[j];
    }
  }

  /** For a password without NUL the second condition follows from the first. */
  lemma NulFreeMatchesIff(known: string, given: string)
    requires NoNul(known)
    ensures Matches(known, given) <==> StartsLike(KeyOf(known), given + "\0")
  {
    MatchesIff(known, given);
    var key, g := KeyOf(known), given + "\0";
    if StartsLike(key, g) && |given| < KEY_LENGTH {
      assert key[|given|] == g[|given|] == '\0';
      assert (known + "\0")[..|known|] == known;
      NulEndsPeriod(known + "\0", KEY_LENGTH, |given|);
    }
  }

  /** When neither holds a NUL, only passwords of a full key or more match others: those
      with the same start. */
  lemma BothNulFreeMatchIff(known: string, given: string)
    requires NoNul(known) && NoNul(given)
    ensures Matches(known, given) <==>
            given == known
            || (|known| >= KEY_LENGTH && |given| >= KEY_LENGTH && known[..KEY_LENGTH] == given[..KEY_LENGTH])
  {
    hide Repeated, Period, Matches;
    NulFreeMatchesIff(known, given);
    RepeatedRepeats(known + "\0", KEY_LENGTH);
    var key, k, g := KeyOf(known), known + "\0", given + "\0";
    if StartsLike(key, g) {
      var n := if |known| < |given| then |known| else |given|;
      forall i | 0 <= i < n && i < KEY_LENGTH ensures known[i] == given[i] {
        assert key[i] == k[i] && key[i] == g[i];
      }
      if n < KEY_LENGTH {
        assert key[n] == k[n] && key[n] == g[n];
      }
    }
  }

  /** So there is no password that only itself matches: a short one may be given twice with a
      NUL between, and anything may follow a long one. */
  lemma AnotherPasswordMatches(known: string) returns (other: string)
    ensures other != known && other != "" && Matches(known, other)
  {
    hide Repeated;
    var s := known + "\0";
    var key := KeyOf(known);
    RepeatedRepeats(s, KEY_LENGTH);
    if |known| < KEY_LENGTH {
      other := known + "\0" + known;
      var n := |s|;
      assert other + "\0" == s + s;
      forall i | 0 <= i < |s + s| && i < KEY_LENGTH ensures key[i] == (s + s)[i] {
        assert i >= n ==> key[(i - n) + n] == key[i - n];
      }
      forall i | 0 <= i && i + (n + n) < KEY_LENGTH ensures key[i + (n + n)] == key[i] {
        assert key[(i + n) + n] == key[i + n] == key[i];
      }
    } else {
      other := known + "x";
      assert forall i :: 0 <= i < KEY_LENGTH ==> s[i] == (other + "\0")[i];
    }
    MatchesIff(known, other);
  }

  // ---------- specification ----------

  function FindByEmail(users: seq<User>, email: string): Option<User> {
    if users == [] then None
    else if users[0].email == email then Some(users[0])
    else FindByEmail(users[1..], email)
  }

  function FindById(users: seq<User>, id: string): Option<User> {
    if users == [] then None
    else if users[0].id == id then Some(users[0])
    else FindById(users[1..], id)
  }

  /** What a request does to the table of tokens ever signed and to the browser's jar. */
  datatype Effect = Effect(signed: set<Token>, jar: Jar, reply: AuthReply)

  /** Everything a sign-up looks at before its insert; None lets it go on. A database error
      while looking for the email is ignored. */
  function SignUpChecked(users: seq<User>, email: string, password: string, selectFault: bool): Option<AuthReply> {
    if email == "" || password == "" then Some(Refused(400))
    else if !selectFault && FindByEmail(users, email).Some? && FindByEmail(users, email).value.id != "" then
      Some(Refused(400))
    else if |password| > KEY_LENGTH then Some(Refused(500))
    else None
  }

  function SignUpInserted(users: seq<User>, email: string, password: string, id: string, insertFault: bool):
    (seq<User>, AuthReply)
  {
    if insertFault || id == "" || FindById(users, id).Some? then (users, Refused(500))
    else (users + [User(id, email, password)], SignedUp)
  }

  /** `fault` is a failing user lookup, which reads as no such user; `lag` passes between the
      two signatures of a login. */
  function LoginEffect(c: Config, users: seq<User>, signed: set<Token>, jar: Jar,
                       email: string, password: string, fault: bool, now: int, lag: nat): Effect
  {
    if email == "" || password == "" then Effect(signed, jar, Refused(400))
    else
      var found := if fault then None else FindByEmail(users, email);
      if found.None? || found.value.id == "" || !Matches(found.value.password, password) then
        Effect(signed, jar, Refused(401))
      else
        var user := found.value.id;
        var end := now + lag;
        var access, refresh := SignAccessToken(c, user, now).value, SignRefreshToken(c, user, end).value;
        Effect(signed + {access, refresh},
               WithCookie(WithCookie(jar, Authorization, access, MaxAge(c.accessLifetime), end),
                          RefreshToken, refresh, MaxAge(c.refreshLifetime), end),
               LoggedIn(user))
  }

  /** A refresh whose token has been verified. */
  datatype Pending = Pending(user: string, verifiedAt: int)

  function BeginRefresh(signed: set<Token>, jar: Jar, now: int): Option<Pending> {
    match Sent(jar, RefreshToken, now)
    case None => None
    case Some(token) =>
      match VerifyToken(signed, token, Refresh, now)
      case None => None
      case Some(user) => Some(Pending(user, now))
  }

  function FinishRefresh(c: Config, users: seq<User>, signed: set<Token>, jar: Jar,
                         p: Pending, fault: bool, now: int): Effect
  {
    if fault then Effect(signed, jar, Refused(500))
    else if FindById(users, p.user).None? then Effect(signed, jar, Refused(401))
    else
      match SignAccessToken(c, p.user, now)
      case None => Effect(signed, jar, Refused(500))
      case Some(access) =>
        Effect(signed + {access}, WithCookie(jar, Authorization, access, MaxAge(c.accessLifetime), now),
               Refreshed(p.user))
  }

  /** Who a request is allowed in as. */
  function Authenticated(users: seq<User>, signed: set<Token>, jar: Jar, fault: bool, now: int): Option<User> {
    match Sent(jar, Authorization, now)
    case None => None
    case Some(token) =>
      match VerifyToken(signed, token, Access, now)
      case None => None
      case Some(user) =>
        var found := if fault then None else FindById(users, user);
        if found.Some? && found.value.id != "" then found else None
  }

  lemma {:induction false} FoundById(users: seq<User>, id: string)
    ensures FindById(users, id).Some? ==> FindById(users, id).value.id == id
  {
    if users != [] {
      FoundById(users[1..], id);
    }
  }

  // ---------- the code ----------

  /** The clock, the users table and, for specification, every token signed so far. */
  class Server {
    const config: Config
    var now: int
    var users: seq<User>
    ghost var signed: set<Token>

    constructor (config: Config, now: int)
      ensures this.config == config && this.now == now && users == [] && signed == {}
    {
      this.config := config;
      this.now := now;
      users := [];
      signed := {};
    }

    method Elapse(d: nat)
      modifies this`now
      ensures now == old(now) + d
    {
      now := now + d;
    }

    /** While a password is hashed, others may sign up. */
    method OthersSignUp()
      modifies this`users
      ensures old(users) <= users
    {
    }

    method Sign(user: string, kind: Kind) returns (r: Option<Token>)
      modifies this`signed
      ensures r == SignToken(user, kind, if kind.Access? then config.accessLifetime else config.refreshLifetime, now)
      ensures signed == old(signed) + (if r.Some? then {r.value} else {})
    {
      r := SignToken(user, kind, if kind.Access? then config.accessLifetime else config.refreshLifetime, now);
      if r.Some? {
        signed := signed + {r.value};
      }
    }

    /** Checking the signature is what makes a presented token one of those signed. */
    method Verify(t: Token, genuine: bool, kind: Kind) returns (r: Option<string>)
      requires genuine <==> t in signed
      ensures r == VerifyToken(signed, t, kind, now)
    {
      if !genuine || now >= t.expiresAt {
        return None;
      }
      if t.user == "" || t.kind != kind {
        return None;
      }
      r := Some(t.user);
    }
  }

  /** The request context the middleware leaves the user in. */
  class Context {
    var user: Option<User>

    constructor ()
      ensures user == None
    {
      user := None;
    }
  }

  class AuthHandler {
    const server: Server
    const tokens: TokenService

    ghost predicate Wired() {
      tokens.config == server.config
    }

    constructor (server: Server, tokens: TokenService)
      requires tokens.config == server.config
      ensures this.server == server && this.tokens == tokens && Wired()
    {
      this.server := server;
      this.tokens := tokens;
    }

    /** `mid` is the table the insert met. */
    method SignUp(email: string, password: string, id: string, selectFault: bool, insertFault: bool)
      returns (reply: AuthReply, ghost mid: seq<User>)
      modifies server`users
      ensures old(server.users) <= mid
      ensures match SignUpChecked(old(server.users), email, password, selectFault)
              case Some(refusal) => reply == refusal && server.users == old(server.users)
              case None => (server.users, reply) == SignUpInserted(mid, email, password, id, insertFault)
    {
      mid := server.users;
      if email == "" || password == "" {
        return Refused(400), mid;
      }
      var existing := if selectFault then None else FindByEmail(server.users, email);
      if existing.Some? && existing.value.id != "" {
        return Refused(400), mid;
      }
      if |password| > KEY_LENGTH {
        return Refused(500), mid;
      }
      server.OthersSignUp();
      mid := server.users;
      if insertFault || id == "" || FindById(server.users, id).Some? {
        return Refused(500), mid;
      }
      server.users := server.users + [User(id, email, password)];
      reply := SignedUp;
    }

    method Login(jar: CookieJar, email: string, password: string, fault: bool, lag: nat) returns (reply: AuthReply)
      requires Wired()
      modifies server`signed, server`now, jar
      ensures Effect(server.signed, jar.cookies, reply)
              == LoginEffect(server.config, server.users, old(server.signed), old(jar.cookies),
                             email, password, fault, old(server.now), lag)
      ensures server.now == old(server.now) + if reply.LoggedIn? then lag else 0
    {
      if email == "" || password == "" {
        return Refused(400);
      }
      var found := if fault then None else FindByEmail(server.users, email);
      if found.None? || found.value.id == "" {
        return Refused(401);
      }
      if !Matches(found.value.password, password) {
        return Refused(401);
      }
      var access := server.Sign(found.value.id, Access);
      if access.None? {
        return Refused(500);
      }
      server.Elapse(lag);
      var refresh := server.Sign(found.value.id, Refresh);
      if refresh.None? {
        return Refused(500);
      }
      tokens.SetAccessCookie(jar, access.value, server.now);
      tokens.SetRefreshCookie(jar, refresh.value, server.now);
      assert old(server.signed) + {access.value} + {refresh.value}
          == old(server.signed) + {access.value, refresh.value};
      reply := LoggedIn(found.value.id);
    }

    /** `latency` passes between verifying the old token and signing the new one. */
    method RefreshAccess(jar: CookieJar, genuine: bool, latency: nat, fault: bool) returns (reply: AuthReply)
      requires Wired()
      requires var sent := Sent(jar.cookies, RefreshToken, server.now);
               sent.Some? ==> (genuine <==> sent.value in server.signed)
      modifies server`signed, server`now, jar
      ensures match BeginRefresh(old(server.signed), old(jar.cookies), old(server.now))
              case None =>
                reply == Refused(401) && server.signed == old(server.signed) && jar.cookies == old(jar.cookies)
                && server.now == old(server.now)
              case Some(p) =>
                server.now == old(server.now) + latency
                && Effect(server.signed, jar.cookies, reply)
                   == FinishRefresh(server.config, server.users, old(server.signed), old(jar.cookies), p, fault, server.now)
    {
      var cookie := Sent(jar.cookies, RefreshToken, server.now);
      if cookie.None? {
        return Refused(401);
      }
      var user := server.Verify(cookie.value, genuine, Refresh);
      if user.None? {
        return Refused(401);
      }
      server.Elapse(latency);
      if fault {
        return Refused(500);
      }
      var found := FindById(server.users, user.value);
      if found.None? {
        return Refused(401);
      }
      FoundById(server.users, user.value);
      var access := server.Sign(found.value.id, Access);
      if access.None? {
        return Refused(500);
      }
      tokens.SetAccessCookie(jar, access.value, server.now);
      reply := Refreshed(found.value.id);
    }

    method Logout(jar: CookieJar) returns (reply: AuthReply)
      modifies jar
      ensures jar.cookies == Cleared(old(jar.cookies)) && reply == LoggedOut
    {
      tokens.ClearAuthCookies(jar);
      reply := LoggedOut;
    }

    /** The middleware: the next handler runs exactly when a user was set. */
    method RequireAuth(ctx: Context, jar: CookieJar, genuine: bool, fault: bool) returns (proceeds: bool)
      requires var sent := Sent(jar.cookies, Authorization, server.now);
               sent.Some? ==> (genuine <==> sent.value in server.signed)
      modifies ctx
      ensures var who := Authenticated(server.users, server.signed, jar.cookies, fault, server.now);
              && (proceeds <==> who.Some?)
              && (proceeds ==> ctx.user == who)
              && (!proceeds ==> ctx.user == old(ctx.user))
    {
      var cookie := Sent(jar.cookies, Authorization, server.now);
      if cookie.None? {
        return false;
      }
      var userId := server.Verify(cookie.value, genuine, Access);
      if userId.None? {
        return false;
      }
      var user := if fault then None else FindById(server.users, userId.value);
      if user.None? || user.value.id == "" {
        return false;
      }
      ctx.user := user;
      proceeds := true;
    }
  }
}
