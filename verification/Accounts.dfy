/** Accounts over whole runs: where they come from, when an email has only one, and what each
    authentication request is answered. */
module Accounts {
  import opened Prelude
  import opened Jwt
  import opened Cookies
  import opened AuthHandlers
  import opened AuthSystem

  // ---------- lookups ----------

  /** The lookup by email finds the first account with that email, and nothing only if there is
      none. */
  lemma {:induction false} FindByEmailIff(users: seq<User>, email: string)
    ensures FindByEmail(users, email).None? <==> forall u :: u in users ==> u.email != email
    ensures forall n: nat :: FirstWithEmail(users, n, email) ==> FindByEmail(users, email) == Some(users[n])
    decreases |users|
  {
    if users != [] {
      var rest := users[1..];
      FindByEmailIff(rest, email);
      assert users == [users[0]] + rest;
      forall n: nat | FirstWithEmail(users, n, email) ensures FindByEmail(users, email) == Some(users[n]) {
        if n > 0 {
          assert FirstWithEmail(rest, n - 1, email) by {
            assert forall m :: 0 <= m < n - 1 ==> rest[m] == users[m + 1];
          }
        }
      }
    }
  }

  predicate FirstWithEmail(users: seq<User>, n: nat, email: string) {
    n < |users| && users[n].email == email && forall m :: 0 <= m < n ==> users[m].email != email
  }

  predicate EmailsUnique(users: seq<User>) {
    forall i, j :: 0 <= i < j < |users| ==> users[i].email != users[j].email
  }

  /** Every account has an id of its own and an email, and its password could be hashed. */
  predicate AccountsOk(users: seq<User>) {
    && (forall i :: 0 <= i < |users| ==>
          users[i].id != "" && users[i].email != "" && users[i].password != "" && |users[i].password| <= KEY_LENGTH)
    && (forall i, j :: 0 <= i < j < |users| ==> users[i].id != users[j].id)
  }

  /** A pending sign-up has passed the checks; if its select ran, none of the accounts seen then
      has its email. */
  predicate RegisteringOk(users: seq<User>, r: Registering) {
    && r.email != "" && r.password != "" && |r.password| <= KEY_LENGTH && r.seen <= |users|
    && (r.checked ==> forall n :: 0 <= n < r.seen ==> users[n].email != r.email)
  }

  predicate SignUpsOk(s: System) {
    AccountsOk(s.users) && forall rid :: rid in s.signups ==> RegisteringOk(s.users, s.signups[rid])
  }

  lemma {:induction false} NoIdFound(users: seq<User>, id: string)
    ensures FindById(users, id).None? <==> forall u :: u in users ==> u.id != id
    decreases |users|
  {
    if users != [] {
      assert users == [users[0]] + users[1..];
      NoIdFound(users[1..], id);
    }
  }

  /** A pending sign-up appears only by passing the checks, and stays as it is until it ends. */
  lemma SignUpsByStep(c: Config, s: System, a: Action, rid: string)
    requires rid in Step(c, s, a).next.signups
    ensures var t := Step(c, s, a).next;
            (rid in s.signups && t.signups[rid] == s.signups[rid])
            || (rid !in s.signups && a.StartSignUp? && a.rid == rid && Step(c, s, a).reply == Silent && t.users == s.users
                && SignUpChecked(s.users, a.email, a.password, a.selectFault).None?
                && t.signups[rid] == Registering(a.email, a.password, |s.users|, !a.selectFault))
  {
    hide SignUpChecked, SignUpInserted;
  }

  lemma StepKeepsSignUps(c: Config, s: System, a: Action)
    requires SignUpsOk(s)
    ensures SignUpsOk(Step(c, s, a).next) && s.users <= Step(c, s, a).next.users
  {
    hide Step;
    var t := Step(c, s, a).next;
    UsersByStep(c, s, a);
    if t.users != s.users {
      NoIdFound(s.users, a.id);
      assert RegisteringOk(s.users, s.signups[a.rid]);
    }
    forall rid | rid in t.signups ensures RegisteringOk(t.users, t.signups[rid]) {
      SignUpsByStep(c, s, a, rid);
      if rid in s.signups {
        assert RegisteringOk(s.users, s.signups[rid]);
      } else {
        CheckedIsOk(s.users, a.email, a.password, a.selectFault);
      }
    }
  }

  lemma CheckedIsOk(users: seq<User>, email: string, password: string, selectFault: bool)
    requires AccountsOk(users) && SignUpChecked(users, email, password, selectFault).None?
    ensures RegisteringOk(users, Registering(email, password, |users|, !selectFault))
  {
    FindByEmailIff(users, email);
    FoundByEmail(users, email);
  }

  lemma {:induction false} SignUpsAlwaysOk(c: Config, start: int, run: seq<Action>)
    ensures SignUpsOk(Exec(c, start, run))
    decreases |run|
  {
    hide Step, SignUpsOk;
    if run == [] {
      NobodyYet(start);
    } else {
      var init := run[..|run| - 1];
      SignUpsAlwaysOk(c, start, init);
      StepKeepsSignUps(c, Exec(c, start, init), run[|run| - 1]);
    }
  }

  lemma NobodyYet(start: int)
    ensures SignUpsOk(Start(start))
  {
  }

  /** Accounts stay, in their order. */
  lemma {:induction false} AccountsStay(c: Config, start: int, run: seq<Action>, i: nat)
    requires i <= |run|
    ensures Exec(c, start, run[..i]).users <= Exec(c, start, run).users
    decreases |run|
  {
    hide Step;
    if i == |run| {
      assert run[..i] == run;
    } else {
      var init := run[..|run| - 1];
      assert init[..i] == run[..i];
      AccountsStay(c, start, init, i);
      UsersByStep(c, Exec(c, start, init), run[|run| - 1]);
    }
  }

  // ---------- a login goes back to a sign-up ----------

  /** Action `k` began this sign-up, and was let past the checks. */
  predicate AskedAt(c: Config, start: int, run: seq<Action>, k: nat, rid: string, email: string, password: string) {
    && k < |run| && run[k].StartSignUp? && run[k].rid == rid && run[k].email == email && run[k].password == password
    && ReplyAt(c, start, run, k) == Silent
  }

  lemma {:induction false} SignUpOrigin(c: Config, start: int, run: seq<Action>, rid: string)
    requires rid in Exec(c, start, run).signups
    ensures var r := Exec(c, start, run).signups[rid];
            exists k: nat :: AskedAt(c, start, run, k, rid, r.email, r.password)
    decreases |run|
  {
    hide Step;
    var n := |run| - 1;
    var init, a := run[..n], run[n];
    var s, r := Exec(c, start, init), Exec(c, start, run).signups[rid];
    SignUpsByStep(c, s, a, rid);
    if rid in s.signups {
      SignUpOrigin(c, start, init, rid);
      var k: nat :| AskedAt(c, start, init, k, rid, r.email, r.password);
      assert init[..k] == run[..k];
      assert AskedAt(c, start, run, k, rid, r.email, r.password);
    } else {
      assert AskedAt(c, start, run, n, rid, r.email, r.password);
    }
  }

  /** Action `j` acknowledged the sign-up that created this account, asked for earlier with just
      this email and password. */
  ghost predicate SignedUpAt(c: Config, start: int, run: seq<Action>, j: nat, u: User) {
    && j < |run| && run[j].EndSignUp? && run[j].id == u.id
    && ReplyAt(c, start, run, j) == Answer(AuthHandlers.SignedUp)
    && Exec(c, start, run[..j + 1]).users == Exec(c, start, run[..j]).users + [u]
    && exists k: nat :: k < j && AskedAt(c, start, run, k, run[j].rid, u.email, u.password)
  }

  lemma {:induction false} AccountsAreSignUps(c: Config, start: int, run: seq<Action>, u: User)
    requires u in Exec(c, start, run).users
    ensures exists j: nat :: SignedUpAt(c, start, run, j, u)
    decreases |run|
  {
    hide Step;
    var n := |run| - 1;
    var init, a := run[..n], run[n];
    var s := Exec(c, start, init);
    UsersByStep(c, s, a);
    if u in s.users {
      AccountsAreSignUps(c, start, init, u);
      var j: nat :| SignedUpAt(c, start, init, j, u);
      SignedUpLater(c, start, init, a, j, u);
      assert init + [a] == run;
    } else {
      assert u == Applicant(s, a);
      SignUpOrigin(c, start, init, a.rid);
      var k: nat :| AskedAt(c, start, init, k, a.rid, u.email, u.password);
      assert init[..k] == run[..k];
      assert AskedAt(c, start, run, k, a.rid, u.email, u.password);
      assert run[..n + 1] == run;
      assert SignedUpAt(c, start, run, n, u);
    }
  }

  lemma SignedUpLater(c: Config, start: int, run: seq<Action>, a: Action, j: nat, u: User)
    requires SignedUpAt(c, start, run, j, u)
    ensures SignedUpAt(c, start, run + [a], j, u)
  {
    hide Step, Exec;
    var all := run + [a];
    assert all[..j] == run[..j] && all[..j + 1] == run[..j + 1] && all[j] == run[j];
    var k: nat :| k < j && AskedAt(c, start, run, k, run[j].rid, u.email, u.password);
    assert all[..k] == run[..k] && all[k] == run[k];
    assert AskedAt(c, start, all, k, run[j].rid, u.email, u.password);
  }

  /** Whoever logs in presented the email an earlier sign-up created that very account with,
      and a password that makes the same key as the one given then. */
  lemma LoginGoesBackToSignUp(c: Config, start: int, run: seq<Action>, a: Action, user: string)
    requires a.Login? && Step(c, Exec(c, start, run), a).reply == Answer(LoggedIn(user))
    ensures exists j: nat, known: string ::
              SignedUpAt(c, start, run, j, User(user, a.email, known)) && Matches(known, a.password)
  {
    hide SignedUpAt, Matches;
    var s := Exec(c, start, run);
    FoundByEmail(s.users, a.email);
    var u := FindByEmail(s.users, a.email).value;
    AccountsAreSignUps(c, start, run, u);
    var j: nat :| SignedUpAt(c, start, run, j, u);
    assert SignedUpAt(c, start, run, j, User(user, a.email, u.password)) && Matches(u.password, a.password);
  }

  /** And whoever logs in could have logged in, then and there, with a different password. */
  lemma AnotherPasswordLogsIn(c: Config, s: System, a: Action, user: string) returns (other: string)
    requires a.Login? && Step(c, s, a).reply == Answer(LoggedIn(user))
    ensures other != a.password && Step(c, s, a.(password := other)).reply == Answer(LoggedIn(user))
  {
    other := AnotherPasswordMatches(a.password);
    hide KeyOf;
  }

  // ---------- one account to an email, unless sign-ups race ----------

  /** An acknowledged sign-up met an account of its email, because its select failed or ran
      before that account was there. */
  ghost predicate Raced(c: Config, s: System, a: Action) {
    && a.EndSignUp? && a.rid in s.signups && Step(c, s, a).reply == Answer(AuthHandlers.SignedUp)
    && var r := s.signups[a.rid];
       exists n :: 0 <= n < |s.users| && s.users[n].email == r.email && (!r.checked || r.seen <= n)
  }

  ghost predicate RacedAt(c: Config, start: int, run: seq<Action>, j: nat) {
    j < |run| && Raced(c, Exec(c, start, run[..j]), run[j])
  }

  /** No two accounts share an email if and only if no acknowledged sign-up raced. */
  lemma {:induction false} EmailsUniqueIff(c: Config, start: int, run: seq<Action>)
    ensures EmailsUnique(Exec(c, start, run).users) <==> forall j: nat :: !RacedAt(c, start, run, j)
    decreases |run|
  {
    hide Step, Raced;
    if run != [] {
      var n := |run| - 1;
      var init, a := run[..n], run[n];
      var s := Exec(c, start, init);
      EmailsUniqueIff(c, start, init);
      SignUpsAlwaysOk(c, start, init);
      UniqueStep(c, s, a);
      forall j: nat ensures RacedAt(c, start, run, j) <==> RacedAt(c, start, init, j) || (j == n && Raced(c, s, a)) {
        if j < n {
          assert init[..j] == run[..j];
        }
      }
      assert RacedAt(c, start, run, n) <==> Raced(c, s, a);
    }
  }

  lemma UniqueStep(c: Config, s: System, a: Action)
    requires SignUpsOk(s)
    ensures EmailsUnique(Step(c, s, a).next.users) <==> EmailsUnique(s.users) && !Raced(c, s, a)
  {
    UsersByStep(c, s, a);
    var t := Step(c, s, a).next;
    hide Step;
    if t.users == s.users {
    } else {
      var u, n := Applicant(s, a), |s.users|;
      assert RegisteringOk(s.users, s.signups[a.rid]);
      assert t.users == s.users + [u] && t.users[n] == u;
      if EmailsUnique(t.users) {
        forall i, j | 0 <= i < j < n ensures s.users[i].email != s.users[j].email {
          assert t.users[i] == s.users[i] && t.users[j] == s.users[j];
        }
        forall i | 0 <= i < n ensures s.users[i].email != u.email {
          assert t.users[i] == s.users[i];
        }
      }
    }
  }

  /** Two requests that both look before either inserts are enough. */
  lemma SignUpsCanRace(c: Config, start: int)
    ensures var run := Race();
            && ReplyAt(c, start, run, 2) == Answer(AuthHandlers.SignedUp)
            && ReplyAt(c, start, run, 3) == Answer(AuthHandlers.SignedUp)
            && Exec(c, start, run).users == [User("u", "e", "p"), User("v", "e", "q")]
  {
    var run := Race();
    hide Step, Exec;
    NoActions(c, start, run);
    forall n | 0 <= n < 4 ensures Exec(c, start, run[..n + 1]) == Step(c, Exec(c, start, run[..n]), run[n]).next {
      assert run[..n + 1] == run[..n] + [run[n]];
      ExecMore(c, start, run[..n], run[n]);
    }
    RaceSteps(c, start);
    assert Exec(c, start, run[..0 + 1]) == RaceState(start, 1);
    assert Exec(c, start, run[..1 + 1]) == RaceState(start, 2);
    assert Exec(c, start, run[..2 + 1]) == RaceState(start, 3);
    assert Exec(c, start, run[..3 + 1]) == RaceState(start, 4);
    assert run[..4] == run;
  }

  ghost function Race(): (run: seq<Action>)
    ensures |run| == 4
  {
    [StartSignUp("a", "e", "p", false), StartSignUp("b", "e", "q", false),
     EndSignUp("a", "u", false), EndSignUp("b", "v", false)]
  }

  ghost function RaceState(start: int, n: nat): System {
    var first, second := Registering("e", "p", 0, true), Registering("e", "q", 0, true);
    match n
    case 0 => Start(start)
    case 1 => Start(start).(signups := map["a" := first])
    case 2 => Start(start).(signups := map["a" := first, "b" := second])
    case 3 => Start(start).(users := [User("u", "e", "p")], signups := map["b" := second])
    case _ => Start(start).(users := [User("u", "e", "p"), User("v", "e", "q")])
  }

  lemma RaceSteps(c: Config, start: int)
    ensures forall n :: 0 <= n < 4 ==> Step(c, RaceState(start, n), Race()[n]).next == RaceState(start, n + 1)
    ensures Step(c, RaceState(start, 2), Race()[2]).reply == Answer(AuthHandlers.SignedUp)
    ensures Step(c, RaceState(start, 3), Race()[3]).reply == Answer(AuthHandlers.SignedUp)
    ensures RaceState(start, 0) == Start(start)
  {
    assert RaceState(start, 2).signups - {"a"} == RaceState(start, 3).signups;
    assert RaceState(start, 3).signups - {"b"} == map[];
    assert [User("u", "e", "p")][1..] == [];
    assert FindById([User("u", "e", "p")], "v").None?;
  }

  // ---------- what each request is answered ----------

  /** A login is judged by the oldest account of its email, and by nothing else. */
  lemma LoginAnswer(c: Config, start: int, run: seq<Action>, a: Action)
    requires a.Login? && a.client !in Exec(c, start, run).pending
    ensures var s := Exec(c, start, run);
            var reply := Step(c, s, a).reply;
            if a.email == "" || a.password == "" then reply == Answer(Refused(400))
            else if a.fault || forall u :: u in s.users ==> u.email != a.email then reply == Answer(Refused(401))
            else exists n: nat ::
                   && FirstWithEmail(s.users, n, a.email)
                   && reply == Answer(if Matches(s.users[n].password, a.password) then LoggedIn(s.users[n].id)
                                      else Refused(401))
  {
    hide Exec, Matches;
    var s := Exec(c, start, run);
    SignUpsAlwaysOk(c, start, run);
    FindByEmailIff(s.users, a.email);
    if exists u :: u in s.users && u.email == a.email {
      var n := OldestWith(s.users, a.email);
      assert FirstWithEmail(s.users, n, a.email);
    }
  }

  lemma {:induction false} OldestWith(users: seq<User>, email: string) returns (n: nat)
    requires exists u :: u in users && u.email == email
    ensures FirstWithEmail(users, n, email)
    decreases |users|
  {
    if users[0].email == email {
      n := 0;
    } else {
      assert users == [users[0]] + users[1..];
      n := OldestWith(users[1..], email);
      n := n + 1;
      assert forall m :: 0 < m < |users| ==> users[m] == users[1..][m - 1];
    }
  }

  /** In a run without races every password signed up with logs its own account in. */
  lemma SignedUpLogsIn(c: Config, start: int, run: seq<Action>, j: nat, u: User, client: string, lag: nat)
    requires SignedUpAt(c, start, run, j, u) && forall i: nat :: !RacedAt(c, start, run, i)
    requires client !in Exec(c, start, run).pending
    ensures Step(c, Exec(c, start, run), Login(client, u.email, u.password, false, lag)).reply == Answer(LoggedIn(u.id))
  {
    hide *;
    var s := Exec(c, start, run);
    var i := AccountOf(c, start, run, j, u);
    SignUpsAlwaysOk(c, start, run);
    Complete(s, i);
    EmailsUniqueIff(c, start, run);
    OnlyOldest(s.users, i);
    LoginAnswer(c, start, run, Login(client, u.email, u.password, false, lag));
    SamePassword(u.password);
  }

  lemma AccountOf(c: Config, start: int, run: seq<Action>, j: nat, u: User) returns (i: nat)
    requires SignedUpAt(c, start, run, j, u)
    ensures i < |Exec(c, start, run).users| && Exec(c, start, run).users[i] == u
  {
    hide Step, Exec, AskedAt;
    i := |Exec(c, start, run[..j]).users|;
    AccountsStay(c, start, run, j + 1);
    assert Exec(c, start, run[..j + 1]).users[i] == u;
  }

  lemma Complete(s: System, i: nat)
    requires SignUpsOk(s) && i < |s.users|
    ensures s.users[i] in s.users && s.users[i].email != "" && s.users[i].password != ""
  {
  }

  lemma OnlyOldest(users: seq<User>, i: nat)
    requires EmailsUnique(users) && i < |users|
    ensures forall n: nat :: FirstWithEmail(users, n, users[i].email) ==> n == i
  {
  }

  lemma SamePassword(password: string)
    ensures Matches(password, password)
  {
  }

  /** A sign-up is refused for an incomplete request, for an email its select finds in use, or
      for a password too long to hash; nothing is stored before its end. */
  lemma SignUpStartAnswer(c: Config, start: int, run: seq<Action>, a: Action)
    requires a.StartSignUp? && a.rid !in Exec(c, start, run).signups
    ensures var s := Exec(c, start, run);
            var Outcome(t, reply) := Step(c, s, a);
            && t.users == s.users
            && if a.email == "" || a.password == "" then reply == Answer(Refused(400)) && t == s
               else if !a.selectFault && exists u :: u in s.users && u.email == a.email then
                 reply == Answer(Refused(400)) && t == s
               else if |a.password| > KEY_LENGTH then reply == Answer(Refused(500)) && t == s
               else reply == Silent && a.rid in t.signups
  {
    hide Exec;
    var s := Exec(c, start, run);
    SignUpsAlwaysOk(c, start, run);
    FindByEmailIff(s.users, a.email);
    FoundByEmail(s.users, a.email);
  }

  /** It ends with one account more, unless the insert fails or the id is in use. */
  lemma SignUpEndAnswer(c: Config, start: int, run: seq<Action>, a: Action)
    requires a.EndSignUp? && a.rid in Exec(c, start, run).signups
    ensures var s := Exec(c, start, run);
            var Outcome(t, reply) := Step(c, s, a);
            if a.insertFault || a.id == "" || exists u :: u in s.users && u.id == a.id then
              reply == Answer(Refused(500)) && t.users == s.users
            else
              reply == Answer(AuthHandlers.SignedUp)
              && t.users == s.users + [User(a.id, s.signups[a.rid].email, s.signups[a.rid].password)]
  {
    hide Exec;
    NoIdFound(Exec(c, start, run).users, a.id);
  }

  /** A logout is always answered and clears what the browser sends; a failing lookup turns a
      request away and makes a refresh fail. */
  lemma OtherAnswers(c: Config, start: int, run: seq<Action>, client: string)
    ensures var s := Exec(c, start, run);
            client !in s.pending ==>
              && Step(c, s, Logout(client)).reply == Answer(LoggedOut)
              && (forall name, t: int :: Sent(JarOf(Step(c, s, Logout(client)).next, client), name, t) == None)
              && Step(c, s, Request(client, true)).reply == Answer(Refused(401))
    ensures var s := Exec(c, start, run);
            client in s.pending ==> Step(c, s, EndRefresh(client, true)).reply == Answer(Refused(500))
  {
    hide Exec;
    var jar := JarOf(Exec(c, start, run), client);
    forall name, t: int ensures Sent(Cleared(jar), name, t) == None {
      ClearedSendsNothing(jar, name, t);
    }
  }
}
