/** When a cleanup can be noticed (go/auth/auth.go, go/auth/session_store.go): only by revoking a session
    that has expired, and exactly when the cleanup was what removed it. */
module AuthCleanup {
  import opened Wrappers
  import opened SessionStores
  import opened AuthSpec
  import opened AuthRuns

  /** The run's own calls that delete the session of a token once it has expired. */
  predicate Sweeps(op: Op, token: string) {
    op.CleanUp? || op == ValidateSession(token) || op == RefreshSession(token)
  }

  /** The call issues the token or refreshes it in time. */
  predicate Renews(call: Call, g: Option<Grant>, answer: Answer, token: string) {
    || ((call.op.Login? || call.op.ValidateResponse?) && answer.Ok? && call.env.token == token)
    || (call.op == RefreshSession(token) && Alive(g, call.env.now))
  }

  lemma StoredStep(cfg: Config, s: Auth, call: Call, g: Option<Grant>, token: string, earlier: int, gone: bool)
    requires Holds(s.sessions, g, token, earlier) && earlier <= call.env.now
    requires call.op.RefreshSession? && call.op.token in s.sessions ==>
      s.sessions[call.op.token].token == call.op.token
    requires token in s.sessions <==> g.Some? && !gone
    requires gone && g.Some? ==> !Alive(g, call.env.now)
    ensures var (s', answer) := AuthStep(cfg, s, call.op, call.env);
      var g' := GrantAfter(cfg, g, call, answer, token);
      && (Renews(call, g, answer, token) ==> g'.Some? && g'.value.expires == call.env.now + cfg.sessionTTL)
      && (!Renews(call, g, answer, token) && g'.Some? ==> g' == g)
      && (token in s'.sessions <==>
            g'.Some? && (Renews(call, g, answer, token)
                         || !(gone || (Sweeps(call.op, token) && call.env.now > g'.value.expires))))
  {
    if !AsksFor(call.op) {
      SessionsChangeSo(cfg, s, call);
      hide AuthStep;
    }
  }

  /** The answer of a cleaned run grants what the answer of the run itself grants. */
  lemma SameGrant(cfg: Config, s: Auth, t: Auth, call: Call, g: Option<Grant>, token: string)
    requires s.files == t.files && s.challenges == t.challenges
    ensures GrantAfter(cfg, g, call, AuthStep(cfg, s, call.op, call.env).1, token) ==
      GrantAfter(cfg, g, call, AuthStep(cfg, t, call.op, call.env).1, token)
    ensures Renews(call, g, AuthStep(cfg, s, call.op, call.env).1, token) ==
      Renews(call, g, AuthStep(cfg, t, call.op, call.env).1, token)
  {
    SameButSessions(cfg, s, t, call.op, call.env);
    hide AuthStep;
  }

  /** How many calls had been made when one last renewed the token. */
  function RenewedAt(cfg: Config, s: Auth, calls: seq<Call>, token: string): (n: nat)
    ensures n <= |calls|
  {
    if calls == [] then 0
    else
      var n := |calls| - 1;
      if Renews(calls[n], GrantOf(cfg, s, calls[..n], token), AnswerOf(cfg, s, calls, n), token) then n + 1
      else RenewedAt(cfg, s, calls[..n], token)
  }

  lemma RenewedNext(cfg: Config, s: Auth, calls: seq<Call>, i: nat, token: string)
    requires 0 < i <= |calls|
    ensures RenewedAt(cfg, s, calls[..i], token) ==
      if Renews(calls[i - 1], GrantOf(cfg, s, calls[..i - 1], token), AnswerOf(cfg, s, calls, i - 1), token) then i
      else RenewedAt(cfg, s, calls[..i - 1], token)
  {
    hide AuthStep, Renews, GrantOf;
    assert calls[..i][..i - 1] == calls[..i - 1];
    AnswerOfPrefix(cfg, s, calls, i);
  }

  /** One of the calls from `renewed` on, before call n, swept what had expired by then. */
  predicate SweptBy(calls: seq<Call>, renewed: nat, n: nat, token: string, expires: int)
    requires n <= |calls|
  {
    exists j :: renewed <= j < n && Sweeps(calls[j].op, token) && calls[j].env.now > expires
  }

  /** One of the cleanups inserted before those calls or before call n did. */
  predicate CleanedBy(calls: seq<Call>, cleans: seq<bool>, renewed: nat, n: nat, expires: int)
    requires n < |calls| == |cleans|
  {
    exists j :: renewed <= j <= n && cleans[j] && calls[j].env.now > expires
  }

  predicate Gone(calls: seq<Call>, cleans: seq<bool>, renewed: nat, i: nat, token: string, g: Option<Grant>)
    requires i < |calls| == |cleans|
  {
    g.Some? && (|| SweptBy(calls, renewed, i, token, g.value.expires)
                || CleanedBy(calls, cleans, renewed, i, g.value.expires))
  }

  /** What is gone by then has expired by then. */
  lemma GoneIsDead(calls: seq<Call>, cleans: seq<bool>, renewed: nat, i: nat, token: string, g: Option<Grant>)
    requires Monotone(calls) && i < |calls| == |cleans| && Gone(calls, cleans, renewed, i, token, g)
    ensures !Alive(g, calls[i].env.now)
  {
  }

  lemma NothingGoneAtRenewal(calls: seq<Call>, cleans: seq<bool>, i: nat, token: string, g: Option<Grant>)
    requires i < |calls| == |cleans| && g.Some?
    ensures Gone(calls, cleans, i, i, token, g) <==> cleans[i] && calls[i].env.now > g.value.expires
  {
  }

  lemma GoneNext(calls: seq<Call>, cleans: seq<bool>, renewed: nat, i: nat, token: string, g: Option<Grant>)
    requires renewed < i < |calls| == |cleans| && g.Some?
    ensures Gone(calls, cleans, renewed, i, token, g) <==>
      || Gone(calls, cleans, renewed, i - 1, token, g)
      || (Sweeps(calls[i - 1].op, token) && calls[i - 1].env.now > g.value.expires)
      || (cleans[i] && calls[i].env.now > g.value.expires)
  {
    var e := g.value.expires;
    assert SweptBy(calls, renewed, i, token, e) <==>
      SweptBy(calls, renewed, i - 1, token, e) || (Sweeps(calls[i - 1].op, token) && calls[i - 1].env.now > e);
    assert CleanedBy(calls, cleans, renewed, i, e) <==>
      CleanedBy(calls, cleans, renewed, i - 1, e) || (cleans[i] && calls[i].env.now > e);
  }

  /** A cleanup before call i. */
  lemma CleanedStep(t: Auth, env: Env, g: Option<Grant>, token: string, earlier: int)
    requires Holds(t.sessions, g, token, earlier) && earlier <= env.now
    ensures var m := CleanUpStep(t, env).0.sessions;
      Holds(m, g, token, env.now) && (token in m <==> token in t.sessions && env.now <= g.value.expires)
  {
  }

  /** In the run with inserted cleanups too the store holds what is granted, and exactly what is
      granted but for what has expired and been swept or cleaned since. */
  lemma {:induction false} StoredExactly(cfg: Config, s: Auth, calls: seq<Call>, cleans: seq<bool>, i: nat,
                                         token: string)
    requires s.sessions == map[] && Monotone(calls) && |cleans| == |calls| && i < |calls|
    ensures var g, m := GrantOf(cfg, s, calls[..i], token), CleanedAt(cfg, s, calls, cleans, i).sessions;
      && Holds(m, g, token, calls[i].env.now)
      && (token in m <==> g.Some? && !Gone(calls, cleans, RenewedAt(cfg, s, calls[..i], token), i, token, g))
  {
    if i > 0 {
      var n := i - 1;
      var call, t, u := calls[n], After(cfg, s, calls[..n]), CleanedAt(cfg, s, calls, cleans, n);
      var g, renewed := GrantOf(cfg, s, calls[..n], token), RenewedAt(cfg, s, calls[..n], token);
      StoredExactly(cfg, s, calls, cleans, n, token);
      if call.op.RefreshSession? {
        StoredExactly(cfg, s, calls, cleans, n, call.op.token);
      }
      CleanupInvisible(cfg, s, calls, cleans, n);
      assert t.files == u.files && t.challenges == u.challenges;
      SameGrant(cfg, t, u, call, g, token);
      if Gone(calls, cleans, renewed, n, token, g) {
        GoneIsDead(calls, cleans, renewed, n, token, g);
      }
      StoredStep(cfg, u, call, g, token, call.env.now, Gone(calls, cleans, renewed, n, token, g));
      StepHolds(cfg, u, call, g, token, call.env.now);
      GrantNext(cfg, s, calls, i, token);
      RenewedNext(cfg, s, calls, i, token);
      CleanedNext(cfg, s, calls, cleans, i);
      var v, answer := AuthStep(cfg, u, call.op, call.env).0, AuthStep(cfg, u, call.op, call.env).1;
      var g' := GrantAfter(cfg, g, call, answer, token);
      hide AuthStep, Gone, Renews, Holds, CleanUpStep, GrantAfter, CleanedAt, RenewedAt;
      HoldsLater(v.sessions, g', token, call.env.now, calls[i].env.now);
      CleanedStep(v, calls[i].env, g', token, call.env.now);
      if g'.Some? {
        if Renews(call, g, answer, token) {
          NothingGoneAtRenewal(calls, cleans, i, token, g');
        } else {
          GoneNext(calls, cleans, renewed, i, token, g');
        }
      } else {
        NothingStored(v.sessions, g', token, call.env.now);
      }
    } else {
      CleanedFirst(cfg, s, calls, cleans);
      assert calls[..0] == [];
      hide AuthStep, CleanedAt;
    }
  }

  lemma GrantNext(cfg: Config, s: Auth, calls: seq<Call>, i: nat, token: string)
    requires 0 < i <= |calls|
    ensures GrantOf(cfg, s, calls[..i], token) ==
      GrantAfter(cfg, GrantOf(cfg, s, calls[..i - 1], token), calls[i - 1], AnswerOf(cfg, s, calls, i - 1), token)
  {
    hide AuthStep, GrantAfter;
    assert calls[..i][..i - 1] == calls[..i - 1];
    AnswerOfPrefix(cfg, s, calls, i);
  }

  lemma HoldsLater(m: Sessions, g: Option<Grant>, token: string, now: int, later: int)
    requires Holds(m, g, token, now) && now <= later
    ensures Holds(m, g, token, later)
  {
  }

  lemma NothingStored(m: Sessions, g: Option<Grant>, token: string, now: int)
    requires Holds(m, g, token, now) && g.None?
    ensures token !in m
  {
  }

  // ---------------------------------------------------------------- the one answer that may differ

  function NoCleans(n: nat): (cleans: seq<bool>)
    ensures |cleans| == n && forall j :: 0 <= j < n ==> !cleans[j]
  {
    seq(n, _ => false)
  }

  lemma {:induction false} NoCleansIsTheRun(cfg: Config, s: Auth, calls: seq<Call>, cleans: seq<bool>, i: nat)
    requires |cleans| == |calls| && i < |calls| && forall j :: 0 <= j < |calls| ==> !cleans[j]
    ensures CleanedAt(cfg, s, calls, cleans, i) == After(cfg, s, calls[..i])
  {
    hide AuthStep, CleanUpStep;
    if i > 0 {
      NoCleansIsTheRun(cfg, s, calls, cleans, i - 1);
      CleanedNext(cfg, s, calls, cleans, i);
      AfterNext(cfg, s, calls, i - 1);
    } else {
      CleanedFirst(cfg, s, calls, cleans);
      assert calls[..0] == [];
    }
  }

  /** Inserted cleanups change the answer to a revocation exactly when the session has expired, none of
      the run's own calls has swept it, and one of the cleanups came after it expired. Then the run
      itself revokes it, and the run with cleanups does not know it. */
  lemma RevocationNoticesExactly(cfg: Config, s: Auth, calls: seq<Call>, cleans: seq<bool>, i: nat, token: string)
    requires s.sessions == map[] && Monotone(calls) && |cleans| == |calls|
    requires i < |calls| && calls[i].op == RevokeSession(token)
    ensures var g, renewed := GrantOf(cfg, s, calls[..i], token), RenewedAt(cfg, s, calls[..i], token);
      var a, b := AnswerOf(cfg, s, calls, i), CleanedAnswer(cfg, s, calls, cleans, i);
      && (a != b <==>
            && g.Some? && !SweptBy(calls, renewed, i, token, g.value.expires)
            && CleanedBy(calls, cleans, renewed, i, g.value.expires))
      && (a != b ==> a == Ok(Acknowledged) && b == Fail(SessionNotFound) && calls[i].env.now > g.value.expires)
  {
    var g, renewed := GrantOf(cfg, s, calls[..i], token), RenewedAt(cfg, s, calls[..i], token);
    StoredExactly(cfg, s, calls, cleans, i, token);
    StoredExactly(cfg, s, calls, NoCleans(|calls|), i, token);
    NoCleansIsTheRun(cfg, s, calls, NoCleans(|calls|), i);
    if Gone(calls, cleans, renewed, i, token, g) {
      GoneIsDead(calls, cleans, renewed, i, token, g);
    }
    hide CleanedAt, After, GrantOf, RenewedAt;
  }

  /** So it happens: a login at time 1 for no longer than that, and at time 2 a revocation, which
      succeeds, unless a cleanup comes just before it. */
  lemma CleanupNoticed()
    ensures var user, env := "u", Env(1, "t", 0, 0, {}, {}, {});
      var s := Auth(map[UserFile(user, Hash) := PasswordHash("p")], map[], map[]);
      var calls := [Call(Login(user, "p"), env), Call(RevokeSession("t"), env.(now := 2))];
      && AnswerOf(Config(0, 0), s, calls, 1) == Ok(Acknowledged)
      && CleanedAnswer(Config(0, 0), s, calls, [false, true], 1) == Fail(SessionNotFound)
  {
    var user, env := "u", Env(1, "t", 0, 0, {}, {}, {});
    var cfg, s := Config(0, 0), Auth(map[UserFile(user, Hash) := PasswordHash("p")], map[], map[]);
    var calls := [Call(Login(user, "p"), env), Call(RevokeSession("t"), env.(now := 2))];
    var granted := Session("t", user, 1);
    assert LoginStep(cfg, s, user, "p", env) == (s.(sessions := map["t" := granted]), Ok(Granted(granted)));
    assert calls[..0] == [] && calls[..1][..0] == [] && calls[..1][0] == calls[0];
    AfterNext(cfg, s, calls, 0);
    CleanedNext(cfg, s, calls, [false, true], 1);
    CleanedFirst(cfg, s, calls, [false, true]);
  }
}
