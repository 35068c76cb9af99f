/** Authentication over whole runs: many clients, a clock that only moves forward, refreshes
    that take time. */
module AuthSystem {
  import opened Prelude
  import opened Jwt
  import opened Cookies
  import opened AuthHandlers

  /** A sign-up that has looked for its email and not inserted yet: `seen` accounts were
      there when it looked, and `checked` says whether the select succeeded. */
  datatype Registering = Registering(email: string, password: string, seen: nat, checked: bool)

  /** A client sends one request at a time; `pending` holds its refresh in progress. Sign-ups
      are named by the environment and need no client. */
  datatype System = System(
    now: int, users: seq<User>, signed: set<Token>,
    jars: map<string, Jar>, pending: map<string, Pending>, signups: map<string, Registering>)

  datatype Action =
    | Elapse(d: nat)
    | StartSignUp(rid: string, email: string, password: string, selectFault: bool)
    | EndSignUp(rid: string, id: string, insertFault: bool)
    | Login(client: string, email: string, password: string, fault: bool, lag: nat)
    | StartRefresh(client: string)
    | EndRefresh(client: string, fault: bool)
    | Logout(client: string)
    | Request(client: string, fault: bool)
    /** A client that is not an honest browser may put any value in its jar. */
    | Plant(client: string, name: CookieName, value: Token)

  datatype Reply = Silent | Answer(reply: AuthReply)

  datatype Outcome = Outcome(next: System, reply: Reply)

  function Start(now: int): System {
    System(now, [], {}, map[], map[], map[])
  }

  function JarOf(s: System, client: string): Jar {
    if client in s.jars then s.jars[client] else map[]
  }

  function Applied(s: System, client: string, e: Effect): Outcome {
    Outcome(s.(signed := e.signed, jars := s.jars[client := e.jar], pending := s.pending - {client}), Answer(e.reply))
  }

  /** Actions that start a request wait for the client's pending one. */
  predicate Enabled(s: System, a: Action) {
    match a
    case StartSignUp(rid, _, _, _) => rid !in s.signups
    case EndSignUp(rid, _, _) => rid in s.signups
    case Login(client, _, _, _, _) => client !in s.pending
    case StartRefresh(client) => client !in s.pending
    case EndRefresh(client, _) => client in s.pending
    case Logout(client) => client !in s.pending
    case Request(client, _) => client !in s.pending
    case _ => true
  }

  function Step(c: Config, s: System, a: Action): Outcome {
    if !Enabled(s, a) then Outcome(s, Silent)
    else
      match a
      case Elapse(d) => Outcome(s.(now := s.now + d), Silent)
      case StartSignUp(rid, email, password, selectFault) =>
        (match SignUpChecked(s.users, email, password, selectFault)
         case Some(refusal) => Outcome(s, Answer(refusal))
         case None =>
           Outcome(s.(signups := s.signups[rid := Registering(email, password, |s.users|, !selectFault)]), Silent))
      case EndSignUp(rid, id, insertFault) =>
        var r := s.signups[rid];
        var (users, reply) := SignUpInserted(s.users, r.email, r.password, id, insertFault);
        Outcome(s.(users := users, signups := s.signups - {rid}), Answer(reply))
      case Login(client, email, password, fault, lag) =>
        var e := LoginEffect(c, s.users, s.signed, JarOf(s, client), email, password, fault, s.now, lag);
        Applied(s.(now := if e.reply.LoggedIn? then s.now + lag else s.now), client, e)
      case StartRefresh(client) =>
        (match BeginRefresh(s.signed, JarOf(s, client), s.now)
         case None => Outcome(s, Answer(Refused(401)))
         case Some(p) => Outcome(s.(pending := s.pending[client := p]), Silent))
      case EndRefresh(client, fault) =>
        Applied(s, client, FinishRefresh(c, s.users, s.signed, JarOf(s, client), s.pending[client], fault, s.now))
      case Logout(client) =>
        Outcome(s.(jars := s.jars[client := Cleared(JarOf(s, client))]), Answer(LoggedOut))
      case Request(client, fault) =>
        (match Authenticated(s.users, s.signed, JarOf(s, client), fault, s.now)
         case None => Outcome(s, Answer(Refused(401)))
         case Some(user) => Outcome(s, Answer(Allowed(user.id))))
      case Plant(client, name, value) =>
        Outcome(s.(jars := s.jars[client := JarOf(s, client)[name := Cookie(value, None)]]), Silent)
  }

  function Exec(c: Config, start: int, run: seq<Action>): System {
    if run == [] then Start(start)
    else Step(c, Exec(c, start, run[..|run| - 1]), run[|run| - 1]).next
  }

  function ReplyAt(c: Config, start: int, run: seq<Action>, i: nat): Reply
    requires i < |run|
  {
    Step(c, Exec(c, start, run[..i]), run[i]).reply
  }

  // ---------- every right to act goes back to a login ----------

  /** Action `i` logged `user` in, and was answered at time `t0`. */
  predicate LoggedInAt(c: Config, start: int, run: seq<Action>, i: nat, user: string, t0: int) {
    i < |run| && run[i].Login? && ReplyAt(c, start, run, i) == Answer(LoggedIn(user))
    && Exec(c, start, run[..i + 1]).now == t0
  }

  /** No refresh takes longer than `d` from verifying the old token to signing the new. */
  predicate Prompt(c: Config, start: int, run: seq<Action>, d: nat) {
    forall k :: 0 <= k < |run| ==> PromptAt(Exec(c, start, run[..k]), run[k], d)
  }

  predicate PromptAt(s: System, a: Action, d: nat) {
    a.EndRefresh? && a.client in s.pending ==> s.now <= s.pending[a.client].verifiedAt + d
  }

  /** Some login of the user leaves the moment `t` within `span` of itself. */
  ghost predicate Within(c: Config, start: int, run: seq<Action>, user: string, t: int, span: int) {
    exists i: nat, t0: int :: LoggedInAt(c, start, run, i, user, t0) && t <= t0 + span
  }

  function Longest(c: Config, d: nat): int {
    if c.refreshLifetime + d > 0 then c.refreshLifetime + d + c.accessLifetime else c.accessLifetime
  }

  /** A refresh token expires within the refresh lifetime of a login, an access token within
      the longest chain, and a pending refresh was verified within the refresh lifetime. */
  ghost predicate TokenTraced(c: Config, start: int, run: seq<Action>, d: nat, t: Token) {
    if t.kind.Refresh? then Within(c, start, run, t.user, t.expiresAt, c.refreshLifetime)
    else Within(c, start, run, t.user, t.expiresAt, Longest(c, d))
  }

  ghost predicate PendingTraced(c: Config, start: int, run: seq<Action>, p: Pending) {
    Within(c, start, run, p.user, p.verifiedAt + 1, c.refreshLifetime)
  }

  ghost predicate Traced(c: Config, start: int, run: seq<Action>, d: nat) {
    var s := Exec(c, start, run);
    && (forall t :: t in s.signed ==> TokenTraced(c, start, run, d, t))
    && (forall client :: client in s.pending ==> PendingTraced(c, start, run, s.pending[client]))
  }

  lemma WithinLater(c: Config, start: int, run: seq<Action>, a: Action, user: string, t: int, span: int)
    requires Within(c, start, run, user, t, span)
    ensures Within(c, start, run + [a], user, t, span)
  {
    var i: nat, t0: int :| LoggedInAt(c, start, run, i, user, t0) && t <= t0 + span;
    assert (run + [a])[..i] == run[..i] && (run + [a])[i] == run[i] && (run + [a])[..i + 1] == run[..i + 1];
    assert LoggedInAt(c, start, run + [a], i, user, t0);
  }

  /** The tokens a step signs: two at a login, one at the end of a refresh, none otherwise. */
  lemma SignedByStep(c: Config, s: System, a: Action, t: Token)
    requires t in Step(c, s, a).next.signed && t !in s.signed
    ensures t.user != ""
    ensures (a.Login? && Step(c, s, a).reply == Answer(LoggedIn(t.user))
             && t.expiresAt <= Step(c, s, a).next.now + (if t.kind.Access? then c.accessLifetime else c.refreshLifetime))
            || (a.EndRefresh? && a.client in s.pending && t.user == s.pending[a.client].user
                && t.kind.Access? && t.expiresAt <= s.now + c.accessLifetime)
  {
  }

  lemma PendingByStep(c: Config, s: System, a: Action, client: string)
    requires client in Step(c, s, a).next.pending
    ensures (client in s.pending && Step(c, s, a).next.pending[client] == s.pending[client])
            || (a == StartRefresh(client)
                && exists t :: t in s.signed && t.kind.Refresh? && s.now < t.expiresAt
                               && Step(c, s, a).next.pending[client] == Pending(t.user, s.now))
  {
  }

  lemma ExecMore(c: Config, start: int, run: seq<Action>, a: Action)
    ensures Exec(c, start, run + [a]) == Step(c, Exec(c, start, run), a).next
  {
    assert (run + [a])[..|run|] == run;
  }

  lemma NewTokenTraced(c: Config, start: int, run: seq<Action>, a: Action, d: nat, t: Token)
    requires Traced(c, start, run, d)
    requires var s := Exec(c, start, run); PromptAt(s, a, d) && t in Step(c, s, a).next.signed && t !in s.signed
    ensures TokenTraced(c, start, run + [a], d, t)
  {
    hide Step, Exec;
    var s := Exec(c, start, run);
    var all := run + [a];
    SignedByStep(c, s, a, t);
    assert all[..|run|] == run && all[|run|] == a && all[..|run| + 1] == all;
    if a.Login? {
      ExecMore(c, start, run, a);
      assert LoggedInAt(c, start, all, |run|, t.user, Exec(c, start, all).now);
    } else {
      var p := s.pending[a.client];
      assert PendingTraced(c, start, run, p);
      WithinLater(c, start, run, a, p.user, p.verifiedAt + 1, c.refreshLifetime);
      var i: nat, t0: int :| LoggedInAt(c, start, all, i, p.user, t0) && p.verifiedAt + 1 <= t0 + c.refreshLifetime;
      LoginsAreEarlier(c, start, all, i, p.user, t0);
      PendingIsPast(c, start, run, a.client);
      assert t.expiresAt <= t0 + Longest(c, d);
    }
  }

  /** The clock never goes back. */
  lemma {:induction false} ClockForward(c: Config, start: int, run: seq<Action>, i: nat)
    requires i <= |run|
    ensures Exec(c, start, run[..i]).now <= Exec(c, start, run).now
    decreases |run|
  {
    if i == |run| {
      assert run[..i] == run;
    } else {
      assert run[..|run| - 1][..i] == run[..i];
      ClockForward(c, start, run[..|run| - 1], i);
    }
  }

  lemma LoginsAreEarlier(c: Config, start: int, run: seq<Action>, i: nat, user: string, t0: int)
    requires LoggedInAt(c, start, run, i, user, t0)
    ensures t0 <= Exec(c, start, run).now
  {
    ClockForward(c, start, run, i + 1);
  }

  lemma {:induction false} PendingIsPast(c: Config, start: int, run: seq<Action>, client: string)
    requires client in Exec(c, start, run).pending
    ensures Exec(c, start, run).pending[client].verifiedAt <= Exec(c, start, run).now
    decreases |run|
  {
    hide Step;
    if run != [] {
      var init, a := run[..|run| - 1], run[|run| - 1];
      var s := Exec(c, start, init);
      PendingByStep(c, s, a, client);
      ClockForward(c, start, run, |init|);
      if client in s.pending {
        PendingIsPast(c, start, init, client);
      }
    }
  }

  lemma {:induction false} AlwaysTraced(c: Config, start: int, run: seq<Action>, d: nat)
    requires Prompt(c, start, run, d)
    ensures Traced(c, start, run, d)
    decreases |run|
  {
    hide Step, TokenTraced, PendingTraced, PromptAt;
    if run != [] {
      var init, a := run[..|run| - 1], run[|run| - 1];
      assert run == init + [a];
      forall k | 0 <= k < |init| ensures PromptAt(Exec(c, start, init[..k]), init[k], d) {
        assert init[..k] == run[..k];
        assert PromptAt(Exec(c, start, run[..k]), run[k], d);
      }
      AlwaysTraced(c, start, init, d);
      assert PromptAt(Exec(c, start, run[..|init|]), run[|init|], d);
      TracedStep(c, start, init, a, d);
    }
  }

  lemma TracedStep(c: Config, start: int, run: seq<Action>, a: Action, d: nat)
    requires Traced(c, start, run, d) && PromptAt(Exec(c, start, run), a, d)
    ensures Traced(c, start, run + [a], d)
  {
    hide Step, PromptAt, Within;
    var s, all := Exec(c, start, run), run + [a];
    assert all[..|all| - 1] == run;
    var next := Step(c, s, a).next;
    assert Exec(c, start, all) == next;
    forall t | t in next.signed ensures TokenTraced(c, start, all, d, t) {
      if t in s.signed {
        assert TokenTraced(c, start, run, d, t);
        WithinLater(c, start, run, a, t.user, t.expiresAt, if t.kind.Refresh? then c.refreshLifetime else Longest(c, d));
      } else {
        NewTokenTraced(c, start, run, a, d, t);
      }
    }
    forall client | client in next.pending ensures PendingTraced(c, start, all, next.pending[client]) {
      PendingByStep(c, s, a, client);
      if client in s.pending && next.pending[client] == s.pending[client] {
        assert PendingTraced(c, start, run, s.pending[client]);
        WithinLater(c, start, run, a, s.pending[client].user, s.pending[client].verifiedAt + 1, c.refreshLifetime);
      } else {
        var t :| t in s.signed && t.kind.Refresh? && s.now < t.expiresAt && next.pending[client] == Pending(t.user, s.now);
        assert TokenTraced(c, start, run, d, t);
        WithinLater(c, start, run, a, t.user, t.expiresAt, c.refreshLifetime);
        WithinSooner(c, start, all, t.user, t.expiresAt, s.now + 1, c.refreshLifetime);
      }
    }
  }

  lemma WithinSooner(c: Config, start: int, run: seq<Action>, user: string, t: int, sooner: int, span: int)
    requires Within(c, start, run, user, t, span) && sooner <= t
    ensures Within(c, start, run, user, sooner, span)
  {
    var i: nat, t0: int :| LoggedInAt(c, start, run, i, user, t0) && t <= t0 + span;
    assert LoggedInAt(c, start, run, i, user, t0) && sooner <= t0 + span;
  }

  /** A request is let in as `user` at time t, from any client whatsoever, only if that user
      logged in at some earlier t0 with t < t0 + refresh lifetime + access lifetime + d,
      where d bounds how long a refresh takes between verifying and signing. Refreshing
      again and again does not help: only a login starts the refresh lifetime anew. */
  lemma SessionBound(c: Config, start: int, run: seq<Action>, d: nat, a: Action, user: string)
    requires Prompt(c, start, run, d)
    requires a.Request? && Step(c, Exec(c, start, run), a).reply == Answer(Allowed(user))
    ensures exists i: nat, t0: int ::
              LoggedInAt(c, start, run, i, user, t0)
              && var now := Exec(c, start, run).now;
              && t0 <= now && (now < t0 + c.refreshLifetime + c.accessLifetime + d || now < t0 + c.accessLifetime)
  {
    hide Prompt, LoggedInAt;
    var s := Exec(c, start, run);
    AlwaysTraced(c, start, run, d);
    var jar := JarOf(s, a.client);
    var t := Sent(jar, Authorization, s.now).value;
    FoundById(s.users, t.user);
    assert t in s.signed && t.kind.Access? && t.user == user && s.now < t.expiresAt;
    assert TokenTraced(c, start, run, d, t);
    var i: nat, t0: int :| LoggedInAt(c, start, run, i, user, t0) && t.expiresAt <= t0 + Longest(c, d);
    LoginsAreEarlier(c, start, run, i, user, t0);
  }

  // ---------- the bound cannot be lowered by more than two nanoseconds ----------

  ghost function LongSession(c: Config): (run: seq<Action>)
    requires c.refreshLifetime >= SECOND && c.accessLifetime >= SECOND
    ensures |run| == 8
  {
    [StartSignUp("r", "e", "p", false), EndSignUp("r", "u", false),
     Login("b", "e", "p", false, 0), Elapse(c.refreshLifetime - 1),
     StartRefresh("b"), Elapse(1), EndRefresh("b", false), Elapse(c.accessLifetime - 1)]
  }

  /** Lifetimes of whole seconds, at least one. */
  predicate WholeLifetimes(c: Config) {
    && c.refreshLifetime >= SECOND && c.accessLifetime >= SECOND
    && c.refreshLifetime % SECOND == 0 && c.accessLifetime % SECOND == 0
  }

  /** The state of that run at time `now`, holding a given access token. */
  ghost function LongState(c: Config, now: int, signed: set<Token>, access: Token, pending: map<string, Pending>): System {
    var refresh := Token("u", Refresh, 0, c.refreshLifetime);
    var jar := map[Authorization := Cookie(access, Some(access.expiresAt)),
                   RefreshToken := Cookie(refresh, Some(c.refreshLifetime))];
    System(now, [User("u", "e", "p")], signed + {access, refresh}, map["b" := jar], pending, map[])
  }

  ghost function FirstAccess(c: Config): Token {
    Token("u", Access, 0, c.accessLifetime)
  }

  ghost function LastAccess(c: Config): Token {
    Token("u", Access, c.refreshLifetime, c.refreshLifetime + c.accessLifetime)
  }

  lemma WholeMaxAge(lifetime: int)
    requires lifetime >= SECOND && lifetime % SECOND == 0
    ensures MaxAge(lifetime) > 0 && MaxAge(lifetime) * SECOND == lifetime
  {
  }

  lemma LongLogin(c: Config)
    requires WholeLifetimes(c)
    ensures Step(c, System(0, [User("u", "e", "p")], {}, map[], map[], map[]), Login("b", "e", "p", false, 0))
            == Outcome(LongState(c, 0, {}, FirstAccess(c), map[]), Answer(LoggedIn("u")))
  {
    hide MaxAge;
    WholeMaxAge(c.accessLifetime);
    WholeMaxAge(c.refreshLifetime);
  }

  /** The sign-up at the start and the request at the end. */
  lemma LongEnds(c: Config)
    requires WholeLifetimes(c)
    ensures Step(c, LongStateAt(c, 0), LongSession(c)[0]).next == LongStateAt(c, 1)
    ensures Step(c, LongStateAt(c, 1), LongSession(c)[1]).next
            == System(0, [User("u", "e", "p")], {}, map[], map[], map[])
    ensures Step(c, LongState(c, c.refreshLifetime + c.accessLifetime - 1, {FirstAccess(c)}, LastAccess(c), map[]),
                 Request("b", false)).reply == Answer(Allowed("u"))
  {
  }

  lemma LongRefreshStarts(c: Config)
    requires WholeLifetimes(c)
    ensures Step(c, LongState(c, c.refreshLifetime - 1, {}, FirstAccess(c), map[]), StartRefresh("b"))
            == Outcome(LongState(c, c.refreshLifetime - 1, {}, FirstAccess(c),
                                 map["b" := Pending("u", c.refreshLifetime - 1)]), Silent)
  {
  }

  lemma LongRefreshEnds(c: Config)
    requires WholeLifetimes(c)
    ensures Step(c, LongState(c, c.refreshLifetime, {}, FirstAccess(c), map["b" := Pending("u", c.refreshLifetime - 1)]),
                 EndRefresh("b", false)).next
            == LongState(c, c.refreshLifetime, {FirstAccess(c)}, LastAccess(c), map[])
  {
    hide MaxAge;
    WholeMaxAge(c.accessLifetime);
    assert map["b" := Pending("u", c.refreshLifetime - 1)] - {"b"} == map[];
    var now := c.refreshLifetime;
    assert (now + c.accessLifetime) % SECOND == 0;
    assert SignAccessToken(c, "u", now) == Some(LastAccess(c));
    var before := LongState(c, now, {}, FirstAccess(c), map["b" := Pending("u", now - 1)]);
    var after := LongState(c, now, {FirstAccess(c)}, LastAccess(c), map[]);
    assert before.signed + {LastAccess(c)} == after.signed;
    assert WithCookie(before.jars["b"], Authorization, LastAccess(c), MaxAge(c.accessLifetime), now) == after.jars["b"];
    assert before.jars["b" := after.jars["b"]] == after.jars;
  }

  /** The states of that run, one after another. */
  ghost function LongStateAt(c: Config, n: nat): System {
    var waiting := map["b" := Pending("u", c.refreshLifetime - 1)];
    match n
    case 0 => Start(0)
    case 1 => System(0, [], {}, map[], map[], map["r" := Registering("e", "p", 0, true)])
    case 2 => System(0, [User("u", "e", "p")], {}, map[], map[], map[])
    case 3 => LongState(c, 0, {}, FirstAccess(c), map[])
    case 4 => LongState(c, c.refreshLifetime - 1, {}, FirstAccess(c), map[])
    case 5 => LongState(c, c.refreshLifetime - 1, {}, FirstAccess(c), waiting)
    case 6 => LongState(c, c.refreshLifetime, {}, FirstAccess(c), waiting)
    case 7 => LongState(c, c.refreshLifetime, {FirstAccess(c)}, LastAccess(c), map[])
    case _ => LongState(c, c.refreshLifetime + c.accessLifetime - 1, {FirstAccess(c)}, LastAccess(c), map[])
  }

  lemma LongTransition(c: Config, n: nat)
    requires WholeLifetimes(c) && n < 8
    ensures Step(c, LongStateAt(c, n), LongSession(c)[n]).next == LongStateAt(c, n + 1)
    ensures PromptAt(LongStateAt(c, n), LongSession(c)[n], 1)
  {
    if n == 2 {
      LongLogin(c);
    } else if n == 4 {
      LongRefreshStarts(c);
    } else if n == 6 {
      LongRefreshEnds(c);
    } else {
      LongEnds(c);
      hide SignUpChecked, SignUpInserted, Authenticated;
    }
  }

  lemma {:induction false} LongPrefix(c: Config, n: nat)
    requires WholeLifetimes(c) && n <= 8
    ensures Exec(c, 0, LongSession(c)[..n]) == LongStateAt(c, n)
    decreases n
  {
    hide Step, LongSession, LongStateAt;
    var run := LongSession(c);
    if n == 0 {
      NoActions(c, 0, run);
      LongStart(c);
    } else {
      LongPrefix(c, n - 1);
      LongTransition(c, n - 1);
      assert run[..n][..n - 1] == run[..n - 1] && run[..n][n - 1] == run[n - 1];
    }
  }

  lemma LongStart(c: Config)
    ensures LongStateAt(c, 0) == Start(0)
  {
  }

  /** Log in at 0, refresh in the last nanosecond of the refresh token with one nanosecond
      of latency, use the new token to its end. */
  lemma SessionBoundNearlyAttained(c: Config)
    requires WholeLifetimes(c)
    ensures var run := LongSession(c);
            && Prompt(c, 0, run, 1)
            && LoggedInAt(c, 0, run, 2, "u", 0)
            && (forall i: nat, t0: int :: LoggedInAt(c, 0, run, i, "u", t0) ==> t0 == 0)
            && Step(c, Exec(c, 0, run), Request("b", false)).reply == Answer(Allowed("u"))
            && Exec(c, 0, run).now == 0 + c.refreshLifetime + c.accessLifetime + 1 - 2
  {
    hide Step, Exec, PromptAt;
    var run := LongSession(c);
    assert run[..8] == run;
    LongPrefix(c, 2);
    LongPrefix(c, 3);
    LongPrefix(c, 8);
    LongLogin(c);
    LongEnds(c);
    forall k | 0 <= k < |run| ensures PromptAt(Exec(c, 0, run[..k]), run[k], 1) {
      LongPrefix(c, k);
      LongTransition(c, k);
    }
  }

  lemma NoActions(c: Config, start: int, run: seq<Action>)
    ensures Exec(c, start, run[..0]) == Start(start)
  {
  }

  // ---------- the jar of an honest browser ----------

  /** The client never plants a cookie. */
  predicate Honest(run: seq<Action>, client: string) {
    forall k :: 0 <= k < |run| ==> !(run[k].Plant? && run[k].client == client)
  }

  /** Each cookie holds a signed token of its own kind; together they name one user, the one
      a refresh in progress is for. */
  predicate JarOk(s: System, client: string) {
    var jar := JarOf(s, client);
    && (Authorization in jar ==> jar[Authorization].value in s.signed && jar[Authorization].value.kind.Access?)
    && (RefreshToken in jar ==> jar[RefreshToken].value in s.signed && jar[RefreshToken].value.kind.Refresh?)
    && (Authorization in jar && RefreshToken in jar ==> jar[Authorization].value.user == jar[RefreshToken].value.user)
    && (client in s.pending ==> RefreshToken in jar && jar[RefreshToken].value.user == s.pending[client].user)
  }

  /** Another client's actions leave jar and refresh alone, and tokens are only added. */
  lemma OthersLeaveClient(c: Config, s: System, a: Action, client: string)
    requires !((a.Login? || a.StartRefresh? || a.EndRefresh? || a.Logout? || a.Plant?) && a.client == client)
    ensures var t := Step(c, s, a).next;
            && JarOf(t, client) == JarOf(s, client) && s.signed <= t.signed
            && (client in t.pending <==> client in s.pending)
            && (client in s.pending ==> t.pending[client] == s.pending[client])
  {
    hide SignUpChecked, SignUpInserted, FindByEmail, FindById, Matches, Sent, WithCookie, SignToken;
  }

  lemma LoginKeepsJar(c: Config, s: System, a: Action)
    requires a.Login? && JarOk(s, a.client)
    ensures JarOk(Step(c, s, a).next, a.client)
  {
    hide FindByEmail, Matches, MaxAge, WholeSeconds;
  }

  lemma RefreshKeepsJar(c: Config, s: System, a: Action)
    requires (a.StartRefresh? || a.EndRefresh? || a.Logout?) && JarOk(s, a.client)
    ensures JarOk(Step(c, s, a).next, a.client)
  {
    hide FindById, MaxAge, WholeSeconds;
  }

  lemma StepKeepsJar(c: Config, s: System, a: Action, client: string)
    requires JarOk(s, client) && !(a.Plant? && a.client == client)
    ensures JarOk(Step(c, s, a).next, client)
  {
    hide Step;
    if a.Login? && a.client == client {
      LoginKeepsJar(c, s, a);
    } else if (a.StartRefresh? || a.EndRefresh? || a.Logout?) && a.client == client {
      RefreshKeepsJar(c, s, a);
    } else {
      OthersLeaveClient(c, s, a, client);
    }
  }

  lemma {:induction false} JarAlwaysOk(c: Config, start: int, run: seq<Action>, client: string)
    requires Honest(run, client)
    ensures JarOk(Exec(c, start, run), client)
    decreases |run|
  {
    hide Step;
    if run != [] {
      var init := run[..|run| - 1];
      JarAlwaysOk(c, start, init, client);
      StepKeepsJar(c, Exec(c, start, init), run[|run| - 1], client);
    }
  }

  /** The client's last successful login or answered logout was a logout. */
  predicate SignedOut(c: Config, start: int, run: seq<Action>, client: string) {
    run != [] &&
    var init, a := run[..|run| - 1], run[|run| - 1];
    var reply := Step(c, Exec(c, start, init), a).reply;
    if a.Logout? && a.client == client && reply == Answer(LoggedOut) then true
    else if a.Login? && a.client == client && reply.Answer? && reply.reply.LoggedIn? then false
    else SignedOut(c, start, init, client)
  }

  lemma SignedOutStep(c: Config, s: System, a: Action, client: string)
    requires !(a.Plant? && a.client == client)
    ensures var Outcome(t, reply) := Step(c, s, a);
            a.Logout? && a.client == client && reply == Answer(LoggedOut) ==>
              JarOf(t, client) == map[] && client !in t.pending
    ensures var Outcome(t, reply) := Step(c, s, a);
            JarOf(s, client) == map[] && client !in s.pending
            && !(a.Login? && a.client == client && reply.Answer? && reply.reply.LoggedIn?) ==>
              JarOf(t, client) == map[] && client !in t.pending
  {
    var jar := Cleared(JarOf(s, client));
    forall name: CookieName ensures name !in jar {
      match name {
        case Authorization =>
        case RefreshToken =>
      }
    }
    assert jar == map[];
  }

  lemma {:induction false} SignedOutIsEmpty(c: Config, start: int, run: seq<Action>, client: string)
    requires Honest(run, client) && SignedOut(c, start, run, client)
    ensures JarOf(Exec(c, start, run), client) == map[] && client !in Exec(c, start, run).pending
    decreases |run|
  {
    hide Step;
    var init, a := run[..|run| - 1], run[|run| - 1];
    var s := Exec(c, start, init);
    SignedOutStep(c, s, a, client);
    var reply := Step(c, s, a).reply;
    if !(a.Logout? && a.client == client && reply == Answer(LoggedOut)) {
      SignedOutIsEmpty(c, start, init, client);
    }
  }

  /** After a logout nothing this browser sends is let in or refreshed, at any later time,
      until it logs in again. */
  lemma LogoutHolds(c: Config, start: int, run: seq<Action>, client: string, fault: bool)
    requires Honest(run, client) && SignedOut(c, start, run, client)
    ensures var s := Exec(c, start, run);
            && Step(c, s, Request(client, fault)).reply == Answer(Refused(401))
            && Step(c, s, StartRefresh(client)).reply == Answer(Refused(401))
  {
    SignedOutIsEmpty(c, start, run, client);
  }

  /** What an honest browser is let in as is the user of its refresh cookie, while it has
      one. */
  lemma OneUserPerBrowser(c: Config, start: int, run: seq<Action>, client: string, fault: bool, user: string)
    requires Honest(run, client)
    requires Step(c, Exec(c, start, run), Request(client, fault)).reply == Answer(Allowed(user))
    ensures var jar := JarOf(Exec(c, start, run), client);
            RefreshToken in jar ==> jar[RefreshToken].value.user == user
  {
    var s := Exec(c, start, run);
    JarAlwaysOk(c, start, run, client);
    FoundById(s.users, JarOf(s, client)[Authorization].value.user);
  }

  // ---------- an honest browser is not turned away ----------

  /** When a token was signed for a user, and when the browser was handed it. */
  datatype Handed = Handed(user: string, signedAt: int, setAt: int)

  function NameOf(kind: Kind): CookieName {
    if kind.Access? then Authorization else RefreshToken
  }

  function LifetimeOf(c: Config, kind: Kind): int {
    if kind.Access? then c.accessLifetime else c.refreshLifetime
  }

  function TokenOf(c: Config, kind: Kind, h: Handed): Token
    requires h.user != ""
  {
    SignToken(h.user, kind, LifetimeOf(c, kind), h.signedAt).value
  }

  /** The token of a kind the client was last handed: by a login, an access token by a refresh
      too; none after a logout. `last` is the one before this step. */
  function HandedByStep(c: Config, s: System, a: Action, client: string, kind: Kind, last: Option<Handed>): Option<Handed> {
    var Outcome(t, reply) := Step(c, s, a);
    if a.Login? && a.client == client && reply.Answer? && reply.reply.LoggedIn? then
      Some(Handed(reply.reply.user, if kind.Access? then s.now else t.now, t.now))
    else if a.EndRefresh? && kind.Access? && a.client == client && reply.Answer? && reply.reply.Refreshed? then
      Some(Handed(reply.reply.user, s.now, s.now))
    else if a.Logout? && a.client == client && reply == Answer(LoggedOut) then None
    else last
  }

  function LastHanded(c: Config, start: int, run: seq<Action>, client: string, kind: Kind): Option<Handed> {
    if run == [] then None
    else
      var init, a := run[..|run| - 1], run[|run| - 1];
      HandedByStep(c, Exec(c, start, init), a, client, kind, LastHanded(c, start, init, client, kind))
  }

  ghost predicate Follows(c: Config, s: System, client: string, kind: Kind, last: Option<Handed>) {
    match last
    case None => forall t: int :: Sent(JarOf(s, client), NameOf(kind), t) == None
    case Some(h) =>
      && h.user != "" && h.signedAt <= h.setAt <= s.now
      && TokenOf(c, kind, h) in s.signed
      && Holds(JarOf(s, client), NameOf(kind), TokenOf(c, kind, h), LifetimeOf(c, kind), h.setAt)
  }

  /** Accounts are never removed, and every token and every pending refresh is of one. */
  predicate AccountsExist(s: System) {
    && (forall t :: t in s.signed ==> t.user != "" && FindById(s.users, t.user).Some?)
    && (forall client :: client in s.pending ==>
          s.pending[client].user != "" && FindById(s.users, s.pending[client].user).Some?)
  }

  /** The account a pending sign-up would add. */
  function Applicant(s: System, a: Action): User
    requires a.EndSignUp? && a.rid in s.signups
  {
    User(a.id, s.signups[a.rid].email, s.signups[a.rid].password)
  }

  /** Only the end of a sign-up adds an account, behind all others and under an unused id. */
  lemma UsersByStep(c: Config, s: System, a: Action)
    ensures var Outcome(t, reply) := Step(c, s, a);
            if a.EndSignUp? && reply == Answer(AuthHandlers.SignedUp) then
              a.rid in s.signups && a.id != "" && FindById(s.users, a.id).None? && t.users == s.users + [Applicant(s, a)]
            else t.users == s.users
  {
  }

  lemma {:induction false} FoundByEmail(users: seq<User>, email: string)
    ensures FindByEmail(users, email).Some? ==>
              FindByEmail(users, email).value in users && FindByEmail(users, email).value.email == email
  {
    if users != [] {
      FoundByEmail(users[1..], email);
    }
  }

  lemma {:induction false} MemberFoundById(users: seq<User>, u: User)
    requires u in users
    ensures FindById(users, u.id).Some?
  {
    if users[0].id != u.id {
      MemberFoundById(users[1..], u);
    }
  }

  lemma {:induction false} StillFoundById(users: seq<User>, u: User, id: string)
    requires FindById(users, id).Some?
    ensures FindById(users + [u], id).Some?
  {
    if users[0].id != id {
      assert (users + [u])[1..] == users[1..] + [u];
      StillFoundById(users[1..], u, id);
    }
  }

  lemma StepKeepsAccounts(c: Config, s: System, a: Action)
    requires AccountsExist(s)
    ensures AccountsExist(Step(c, s, a).next)
  {
    hide Step;
    var t := Step(c, s, a).next;
    UsersByStep(c, s, a);
    forall id | FindById(s.users, id).Some? ensures FindById(t.users, id).Some? {
      if t.users != s.users {
        StillFoundById(s.users, Applicant(s, a), id);
      }
    }
    forall x | x in t.signed ensures x.user != "" && FindById(t.users, x.user).Some? {
      if x !in s.signed {
        SignedByStep(c, s, a, x);
        if a.Login? {
          LoginIsForAccount(c, s, a, x.user);
        }
      }
    }
    forall client | client in t.pending
      ensures t.pending[client].user != "" && FindById(t.users, t.pending[client].user).Some?
    {
      PendingByStep(c, s, a, client);
    }
  }

  lemma LoginIsForAccount(c: Config, s: System, a: Action, user: string)
    requires a.Login? && Step(c, s, a).reply == Answer(LoggedIn(user))
    ensures FindById(s.users, user).Some?
  {
    FoundByEmail(s.users, a.email);
    MemberFoundById(s.users, FindByEmail(s.users, a.email).value);
  }

  lemma {:induction false} AccountsAlwaysExist(c: Config, start: int, run: seq<Action>)
    ensures AccountsExist(Exec(c, start, run))
    decreases |run|
  {
    hide Step;
    if run != [] {
      var init := run[..|run| - 1];
      AccountsAlwaysExist(c, start, init);
      StepKeepsAccounts(c, Exec(c, start, init), run[|run| - 1]);
    }
  }

  lemma ClearedSendsNothing(jar: Jar, name: CookieName, t: int)
    ensures Sent(Cleared(jar), name, t) == None
  {
    match name {
      case Authorization =>
      case RefreshToken =>
    }
  }

  /** Only the client's own login, refresh and logout, and a planted cookie, touch its jar. */
  lemma OthersLeaveJar(c: Config, s: System, a: Action, client: string)
    requires !((a.Login? || a.EndRefresh? || a.Logout? || a.Plant?) && a.client == client)
    ensures JarOf(Step(c, s, a).next, client) == JarOf(s, client)
    ensures s.signed <= Step(c, s, a).next.signed && s.now <= Step(c, s, a).next.now
  {
    hide SignUpChecked, SignUpInserted, FindByEmail, FindById, Matches, Sent, WithCookie;
  }

  lemma LoginHands(c: Config, s: System, a: Action, kind: Kind, last: Option<Handed>)
    requires a.Login? && Follows(c, s, a.client, kind, last)
    ensures Follows(c, Step(c, s, a).next, a.client, kind, HandedByStep(c, s, a, a.client, kind, last))
  {
    hide FindByEmail, Matches, Sent, WithCookie, WholeSeconds, MaxAge, Kept;
    var t := Step(c, s, a).next;
    if Step(c, s, a).reply.Answer? && Step(c, s, a).reply.reply.LoggedIn? {
      var user := Step(c, s, a).reply.reply.user;
      var jar := JarOf(s, a.client);
      var access := SignAccessToken(c, user, s.now).value;
      var refresh := SignRefreshToken(c, user, t.now).value;
      var mid := WithCookie(jar, Authorization, access, MaxAge(c.accessLifetime), t.now);
      SetCookieHolds(jar, Authorization, access, c.accessLifetime, t.now);
      SetCookieHolds(mid, RefreshToken, refresh, c.refreshLifetime, t.now);
      assert JarOf(t, a.client) == WithCookie(mid, RefreshToken, refresh, MaxAge(c.refreshLifetime), t.now);
      assert SameSent(JarOf(t, a.client), mid, Authorization);
      var h := HandedByStep(c, s, a, a.client, kind, last).value;
      assert TokenOf(c, kind, h) == if kind.Access? then access else refresh;
    }
  }

  lemma RefreshHands(c: Config, s: System, a: Action, kind: Kind, last: Option<Handed>)
    requires a.EndRefresh? && Follows(c, s, a.client, kind, last)
    ensures Follows(c, Step(c, s, a).next, a.client, kind, HandedByStep(c, s, a, a.client, kind, last))
  {
    hide FindById, Sent, WithCookie, WholeSeconds, MaxAge, Kept;
    if Step(c, s, a).reply.Answer? && Step(c, s, a).reply.reply.Refreshed? {
      var user := Step(c, s, a).reply.reply.user;
      var t, access := Step(c, s, a).next, SignAccessToken(c, user, s.now).value;
      SetCookieHolds(JarOf(s, a.client), Authorization, access, c.accessLifetime, s.now);
      assert SameSent(JarOf(t, a.client), JarOf(s, a.client), RefreshToken);
    }
  }

  lemma StepFollows(c: Config, s: System, a: Action, client: string, kind: Kind, last: Option<Handed>)
    requires Follows(c, s, client, kind, last) && !(a.Plant? && a.client == client)
    ensures Follows(c, Step(c, s, a).next, client, kind, HandedByStep(c, s, a, client, kind, last))
  {
    hide Sent, Cleared, LoginEffect, FinishRefresh, TokenOf, Kept;
    if a.Login? && a.client == client {
      LoginHands(c, s, a, kind, last);
    } else if a.EndRefresh? && a.client == client {
      RefreshHands(c, s, a, kind, last);
    } else if a.Logout? && a.client == client {
      forall t: int ensures Sent(Cleared(JarOf(s, client)), NameOf(kind), t) == None {
        ClearedSendsNothing(JarOf(s, client), NameOf(kind), t);
      }
    } else {
      OthersLeaveJar(c, s, a, client);
      hide Step;
    }
  }

  lemma {:induction false} AlwaysFollows(c: Config, start: int, run: seq<Action>, client: string, kind: Kind)
    requires Honest(run, client)
    ensures Follows(c, Exec(c, start, run), client, kind, LastHanded(c, start, run, client, kind))
    decreases |run|
  {
    hide Step, Follows, HandedByStep;
    if run == [] {
      NothingHanded(c, start, client, kind);
    } else {
      var init := run[..|run| - 1];
      AlwaysFollows(c, start, init, client, kind);
      StepFollows(c, Exec(c, start, init), run[|run| - 1], client, kind, LastHanded(c, start, init, client, kind));
    }
  }

  lemma NothingHanded(c: Config, start: int, client: string, kind: Kind)
    ensures Follows(c, Start(start), client, kind, None)
  {
  }

  /** The last token of its kind the browser was handed has not expired. */
  predicate SignedIn(c: Config, last: Option<Handed>, kind: Kind, now: int) {
    last.Some? && now < WholeSeconds(last.value.signedAt + LifetimeOf(c, kind))
  }

  /** With cookies that outlive their tokens, what an honest browser sends verifies exactly
      while the last token it was handed has not expired. */
  lemma SentVerifiesIff(c: Config, start: int, run: seq<Action>, client: string, kind: Kind)
    requires Honest(run, client) && OutlivesToken(LifetimeOf(c, kind))
    ensures var s, last := Exec(c, start, run), LastHanded(c, start, run, client, kind);
            var sent := Sent(JarOf(s, client), NameOf(kind), s.now);
            if SignedIn(c, last, kind, s.now) then
              sent.Some? && VerifyToken(s.signed, sent.value, kind, s.now) == Some(last.value.user)
            else sent.None? || VerifyToken(s.signed, sent.value, kind, s.now) == None
  {
    hide Exec, LastHanded, WholeSeconds;
    var s, last := Exec(c, start, run), LastHanded(c, start, run, client, kind);
    AlwaysFollows(c, start, run, client, kind);
    if last.Some? {
      var h, lifetime := last.value, LifetimeOf(c, kind);
      var token := TokenOf(c, kind, h);
      SetCookieHolds(map[], NameOf(kind), token, lifetime, h.setAt);
      assert token == SignToken(h.user, kind, lifetime, h.signedAt).value;
      var alone := WithCookie(map[], NameOf(kind), token, MaxAge(lifetime), h.setAt);
      assert Sent(JarOf(s, client), NameOf(kind), s.now) == Sent(alone, NameOf(kind), s.now);
      hide Sent, WithCookie, Kept, MaxAge;
    }
  }

  /** The converse of the session bound: a request of an honest browser is let in, as the
      user of its last login or refresh, exactly until the token signed there expires, unless
      it has logged out since. Nothing any other client does can shorten that. */
  lemma RequestAllowedIff(c: Config, start: int, run: seq<Action>, client: string)
    requires Honest(run, client) && OutlivesToken(c.accessLifetime)
    requires client !in Exec(c, start, run).pending
    ensures var s, last := Exec(c, start, run), LastHanded(c, start, run, client, Access);
            Step(c, s, Request(client, false)).reply
            == Answer(if SignedIn(c, last, Access, s.now) then Allowed(last.value.user) else Refused(401))
  {
    hide Exec, LastHanded, OutlivesToken, Sent, WholeSeconds, SignedIn;
    var s := Exec(c, start, run);
    SentVerifiesIff(c, start, run, client, Access);
    AccountsAlwaysExist(c, start, run);
    var sent := Sent(JarOf(s, client), Authorization, s.now);
    if sent.Some? && VerifyToken(s.signed, sent.value, Access, s.now).Some? {
      FoundById(s.users, sent.value.user);
    }
  }

  /** Likewise for refreshing: it begins exactly until the refresh token of the last login
      expires. */
  lemma RefreshStartsIff(c: Config, start: int, run: seq<Action>, client: string)
    requires Honest(run, client) && OutlivesToken(c.refreshLifetime)
    requires client !in Exec(c, start, run).pending
    ensures var s, last := Exec(c, start, run), LastHanded(c, start, run, client, Refresh);
            var Outcome(t, reply) := Step(c, s, StartRefresh(client));
            if SignedIn(c, last, Refresh, s.now) then
              reply == Silent && client in t.pending && t.pending[client].user == last.value.user
            else reply == Answer(Refused(401)) && t == s
  {
    hide Exec, LastHanded, OutlivesToken, Sent, WholeSeconds, SignedIn;
    SentVerifiesIff(c, start, run, client, Refresh);
  }

  /** A refresh that has begun ends with a new access token unless a statement fails. */
  lemma RefreshEnds(c: Config, start: int, run: seq<Action>, client: string)
    requires client in Exec(c, start, run).pending
    ensures var s := Exec(c, start, run);
            Step(c, s, EndRefresh(client, false)).reply == Answer(Refreshed(s.pending[client].user))
  {
    hide Exec;
    AccountsAlwaysExist(c, start, run);
  }
}
