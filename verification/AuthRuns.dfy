/** What holds of the authenticator over whole sequential runs: which sessions are valid, that
    cleaning up is invisible, and that a revoked key stays revoked. */
module AuthRuns {
  import opened Wrappers
  import opened SessionStores
  import opened AuthSpec

  datatype Call = Call(op: Op, env: Env)

  function After(cfg: Config, s: Auth, calls: seq<Call>): Auth {
    if calls == [] then s
    else
      var n := |calls| - 1;
      AuthStep(cfg, After(cfg, s, calls[..n]), calls[n].op, calls[n].env).0
  }

  /** The answer of call i. */
  function AnswerOf(cfg: Config, s: Auth, calls: seq<Call>, i: nat): Answer
    requires i < |calls|
  {
    AuthStep(cfg, After(cfg, s, calls[..i]), calls[i].op, calls[i].env).1
  }

  /** The clock never goes back. */
  predicate Monotone(calls: seq<Call>) {
    forall i, j :: 0 <= i < j < |calls| ==> calls[i].env.now <= calls[j].env.now
  }

  lemma AfterNext(cfg: Config, s: Auth, calls: seq<Call>, i: nat)
    requires i < |calls|
    ensures After(cfg, s, calls[..i + 1]) ==
      AuthStep(cfg, After(cfg, s, calls[..i]), calls[i].op, calls[i].env).0
  {
    assert calls[..i + 1][..i] == calls[..i];
  }

  // ---------------------------------------------------------------- which sessions are valid

  /** What the calls so far grant a token, told without any store. */
  datatype Grant = Grant(user: string, expires: int)

  function GrantAfter(cfg: Config, g: Option<Grant>, call: Call, answer: Answer, token: string): Option<Grant> {
    var now := call.env.now;
    match call.op
    case Login(user, _) =>
      if answer.Ok? && call.env.token == token then Some(Grant(user, now + cfg.sessionTTL)) else g
    case ValidateResponse(user, _) =>
      if answer.Ok? && call.env.token == token then Some(Grant(user, now + cfg.sessionTTL)) else g
    case RefreshSession(t) =>
      if t == token && g.Some? && now <= g.value.expires then Some(Grant(g.value.user, now + cfg.sessionTTL)) else g
    case RevokeSession(t) => if t == token then None else g
    case RotateKeyPair(user, _, _) => if answer.Ok? && g.Some? && g.value.user == user then None else g
    case RevokeKey(user, _) => if answer.Ok? && g.Some? && g.value.user == user then None else g
    case DeleteUser(user) => if answer.Ok? && g.Some? && g.value.user == user then None else g
    case _ => g
  }

  function GrantOf(cfg: Config, s: Auth, calls: seq<Call>, token: string): Option<Grant> {
    if calls == [] then None
    else
      var n := |calls| - 1;
      GrantAfter(cfg, GrantOf(cfg, s, calls[..n], token), calls[n], AnswerOf(cfg, s, calls, n), token)
  }

  predicate Alive(g: Option<Grant>, now: int) {
    g.Some? && now <= g.value.expires
  }

  /** The store holds what is granted, except that something expired may be gone already. */
  predicate Holds(sessions: Sessions, g: Option<Grant>, token: string, now: int) {
    && (token in sessions ==>
          sessions[token].token == token && g == Some(Grant(sessions[token].user, sessions[token].expires)))
    && (token !in sessions ==> !Alive(g, now))
  }

  /** What an operation that asks about no particular session does to the sessions. */
  datatype Change = Nothing | Issue(session: Session) | DropUser(user: string) | DropExpired(now: int)

  function ChangeBy(cfg: Config, call: Call, answer: Answer): Change {
    var issued := Session(call.env.token, if call.op.Login? || call.op.ValidateResponse? then call.op.user else "",
                          call.env.now + cfg.sessionTTL);
    if call.op.CleanUp? then DropExpired(call.env.now)
    else if answer.Fail? then Nothing
    else
      match call.op
      case Login(_, _) => Issue(issued)
      case ValidateResponse(_, _) => Issue(issued)
      case RotateKeyPair(user, _, _) => DropUser(user)
      case RevokeKey(user, _) => DropUser(user)
      case DeleteUser(user) => DropUser(user)
      case _ => Nothing
  }

  function Changed(m: Sessions, change: Change): Sessions {
    match change
    case Nothing => m
    case Issue(session) => m[session.token := session]
    case DropUser(user) => WithoutUser(m, user)
    case DropExpired(now) => WithoutExpired(m, now)
  }

  predicate AsksFor(op: Op) {
    op.ValidateSession? || op.RefreshSession? || op.RevokeSession?
  }

  lemma SessionsChangeSo(cfg: Config, s: Auth, call: Call)
    requires !AsksFor(call.op)
    ensures var (s', answer) := AuthStep(cfg, s, call.op, call.env);
      s'.sessions == Changed(s.sessions, ChangeBy(cfg, call, answer))
  {
    hide WriteAll, DeleteArtifacts, CheckPassword, IsRevoked, WithoutUser, WithoutExpired;
  }

  lemma StepHolds(cfg: Config, s: Auth, call: Call, g: Option<Grant>, token: string, earlier: int)
    requires Holds(s.sessions, g, token, earlier) && earlier <= call.env.now
    requires call.op.RefreshSession? && call.op.token in s.sessions ==>
      s.sessions[call.op.token].token == call.op.token
    ensures var (s', answer) := AuthStep(cfg, s, call.op, call.env);
      Holds(s'.sessions, GrantAfter(cfg, g, call, answer, token), token, call.env.now)
  {
    if !AsksFor(call.op) {
      SessionsChangeSo(cfg, s, call);
      hide AuthStep;
    }
  }

  lemma {:induction false} RunHolds(cfg: Config, s: Auth, calls: seq<Call>, i: nat, token: string, now: int)
    requires s.sessions == map[] && Monotone(calls) && i <= |calls|
    requires i > 0 ==> calls[i - 1].env.now <= now
    ensures Holds(After(cfg, s, calls[..i]).sessions, GrantOf(cfg, s, calls[..i], token), token, now)
  {
    if i > 0 {
      var call, before := calls[i - 1], calls[..i - 1];
      assert calls[..i][..i - 1] == before;
      RunHolds(cfg, s, calls, i - 1, token, call.env.now);
      if call.op.RefreshSession? {
        RunHolds(cfg, s, calls, i - 1, call.op.token, call.env.now);
      }
      StepHolds(cfg, After(cfg, s, before), call, GrantOf(cfg, s, before, token), token, call.env.now);
      AnswerOfPrefix(cfg, s, calls, i);
    }
  }

  lemma AnswerOfPrefix(cfg: Config, s: Auth, calls: seq<Call>, i: nat)
    requires 0 < i <= |calls|
    ensures AnswerOf(cfg, s, calls[..i], i - 1) == AnswerOf(cfg, s, calls, i - 1)
  {
    assert calls[..i][..i - 1] == calls[..i - 1];
  }

  /** In every run from no sessions, a token is accepted exactly when it was issued, no revocation,
      rotation, key revocation or user deletion has ended it since, and the clock is not past its
      last issue or refresh plus the TTL. */
  lemma ValidExactly(cfg: Config, s: Auth, calls: seq<Call>, i: nat, token: string)
    requires s.sessions == map[] && Monotone(calls) && i < |calls|
    requires calls[i].op == ValidateSession(token)
    ensures var g := GrantOf(cfg, s, calls[..i], token);
      if Alive(g, calls[i].env.now)
      then AnswerOf(cfg, s, calls, i) == Ok(Granted(Session(token, g.value.user, g.value.expires)))
      else AnswerOf(cfg, s, calls, i).Fail?
  {
    RunHolds(cfg, s, calls, i, token, calls[i].env.now);
  }

  /** No call from i to j issues the token anew. */
  predicate NotReissued(cfg: Config, s: Auth, calls: seq<Call>, i: nat, j: nat, token: string)
    requires i <= j <= |calls|
  {
    forall n :: i <= n < j ==>
      (calls[n].op.Login? || calls[n].op.ValidateResponse?) && AnswerOf(cfg, s, calls, n).Ok? ==>
      calls[n].env.token != token
  }

  /** Once expired or ended a token never becomes valid again. */
  lemma {:induction false} DeadStaysDead(cfg: Config, s: Auth, calls: seq<Call>, i: nat, j: nat, token: string)
    requires Monotone(calls) && i <= j < |calls| && NotReissued(cfg, s, calls, i, j, token)
    requires !Alive(GrantOf(cfg, s, calls[..i], token), calls[i].env.now)
    ensures !Alive(GrantOf(cfg, s, calls[..j], token), calls[j].env.now)
  {
    hide AuthStep, AnswerOf, GrantAfter, Alive;
    if i < j {
      DeadStaysDead(cfg, s, calls, i, j - 1, token);
      assert calls[..j][..j - 1] == calls[..j - 1];
      AnswerOfPrefix(cfg, s, calls, j);
      DeadAfter(cfg, GrantOf(cfg, s, calls[..j - 1], token), calls[j - 1], AnswerOf(cfg, s, calls, j - 1), token,
                calls[j].env.now);
    }
  }

  lemma DeadAfter(cfg: Config, g: Option<Grant>, call: Call, answer: Answer, token: string, later: int)
    requires !Alive(g, call.env.now) && call.env.now <= later
    requires (call.op.Login? || call.op.ValidateResponse?) && answer.Ok? ==> call.env.token != token
    ensures !Alive(GrantAfter(cfg, g, call, answer, token), later)
  {
  }

  // ---------------------------------------------------------------- cleaning up is invisible

  predicate Live(m: Sessions, token: string, now: int) {
    token in m && !Expired(m[token], now)
  }

  ghost predicate SameLiveSessions(m: Sessions, m': Sessions, now: int) {
    && (forall token :: Live(m, token, now) <==> Live(m', token, now))
    && (forall token :: Live(m, token, now) ==> m[token] == m'[token])
    && (forall token :: token in m ==> m[token].token == token)
    && (forall token :: token in m' ==> m'[token].token == token)
  }

  /** Equal but for sessions that have expired. */
  ghost predicate SameLive(s: Auth, t: Auth, now: int) {
    s.files == t.files && s.challenges == t.challenges && SameLiveSessions(s.sessions, t.sessions, now)
  }

  lemma SameLiveKept(m: Sessions, m': Sessions, now: int, token: string, session: Session, user: string)
    requires SameLiveSessions(m, m', now)
    ensures session.token == token ==> SameLiveSessions(m[token := session], m'[token := session], now)
    ensures SameLiveSessions(m - {token}, m' - {token}, now)
    ensures !Live(m, token, now) ==> SameLiveSessions(m - {token}, m', now) && SameLiveSessions(m, m' - {token}, now)
    ensures SameLiveSessions(WithoutUser(m, user), WithoutUser(m', user), now)
    ensures SameLiveSessions(WithoutExpired(m, now), WithoutExpired(m', now), now)
  {
    assert !Live(m, token, now) ==> !Live(m', token, now);
    forall u
      ensures Live(WithoutUser(m, user), u, now) <==> Live(m, u, now) && m[u].user != user
      ensures Live(WithoutUser(m', user), u, now) <==> Live(m', u, now) && m'[u].user != user
      ensures Live(WithoutExpired(m, now), u, now) <==> Live(m, u, now)
      ensures Live(WithoutExpired(m', now), u, now) <==> Live(m', u, now)
      ensures Live(m - {token}, u, now) <==> Live(m, u, now) && u != token
      ensures Live(m' - {token}, u, now) <==> Live(m', u, now) && u != token
      ensures Live(m[token := session], u, now) <==> if u == token then !Expired(session, now) else Live(m, u, now)
      ensures Live(m'[token := session], u, now) <==> if u == token then !Expired(session, now) else Live(m', u, now)
    {
    }
  }

  /** What the answers on two stores that differ in expired sessions have to do with each other. They
      are equal, but that a session is refused here as expired and there as unknown; that an expired
      session can be revoked exactly where it still is; and that a cleanup counts what it removes. */
  ghost predicate SameVerdict(op: Op, m: Sessions, m': Sessions, now: int, a: Answer, b: Answer) {
    match op
    case ValidateSession(_) => a == b || (a.Fail? && b.Fail?)
    case RefreshSession(_) => a == b || (a.Fail? && b.Fail?)
    case RevokeSession(token) =>
      && (a == b <==> (token in m <==> token in m'))
      && (a != b ==> !Live(m, token, now) && !Live(m', token, now))
    case CleanUp =>
      && a.Ok? && a.value.CleanedUp? && b.Ok? && b.value.CleanedUp?
      && a.value.count - b.value.count == |m| - |m'|
    case _ => a == b
  }

  lemma CleanedIsSame(s: Auth, t: Auth, env: Env, now: int)
    requires SameLive(s, t, now) && now <= env.now
    ensures SameLive(s, CleanUpStep(t, env).0, env.now) && SameLive(s, t, env.now)
  {
    var m, m' := s.sessions, t.sessions;
    forall token
      ensures Live(m, token, env.now) ==> Live(m, token, now)
      ensures Live(m', token, env.now) ==> Live(m', token, now)
      ensures Live(WithoutExpired(m', env.now), token, env.now) <==> Live(m', token, env.now)
    {
    }
  }

  /** The files and challenges after a step, and its answer, hang on the sessions only through the
      one session that is asked about. */
  lemma SameButSessions(cfg: Config, s: Auth, t: Auth, op: Op, env: Env)
    requires s.files == t.files && s.challenges == t.challenges
    ensures AuthStep(cfg, s, op, env).0.files == AuthStep(cfg, t, op, env).0.files
    ensures AuthStep(cfg, s, op, env).0.challenges == AuthStep(cfg, t, op, env).0.challenges
    ensures !AsksFor(op) && !op.CleanUp? ==>
      AuthStep(cfg, s, op, env).1 == AuthStep(cfg, t, op, env).1
  {
    if ChangesUser(op) {
      SameUserChange(cfg, s, t, op, env);
    } else {
      hide CheckPassword, IsRevoked, WithoutUser, WithoutExpired,
           RegisterStep, DeleteUserStep, RotateKeyPairStep, RevokeKeyStep;
    }
  }

  predicate ChangesUser(op: Op) {
    op.Register? || op.DeleteUser? || op.RotateKeyPair? || op.RevokeKey?
  }

  lemma SameUserChange(cfg: Config, s: Auth, t: Auth, op: Op, env: Env)
    requires s.files == t.files && s.challenges == t.challenges && ChangesUser(op)
    ensures AuthStep(cfg, s, op, env).0.files == AuthStep(cfg, t, op, env).0.files
    ensures AuthStep(cfg, s, op, env).0.challenges == AuthStep(cfg, t, op, env).0.challenges
    ensures AuthStep(cfg, s, op, env).1 == AuthStep(cfg, t, op, env).1
  {
    hide WriteAll, DeleteArtifacts, CheckPassword, WithoutUser,
         LoginStep, CreateChallengeStep, ValidateResponseStep, CleanUpStep;
  }

  lemma StepSame(cfg: Config, s: Auth, t: Auth, op: Op, env: Env)
    requires SameLive(s, t, env.now)
    ensures SameLive(AuthStep(cfg, s, op, env).0, AuthStep(cfg, t, op, env).0, env.now)
    ensures SameVerdict(op, s.sessions, t.sessions, env.now, AuthStep(cfg, s, op, env).1, AuthStep(cfg, t, op, env).1)
  {
    SameButSessions(cfg, s, t, op, env);
    hide AuthStep, SameLiveSessions;
    if AsksFor(op) {
      AskedSame(cfg, s, t, op, op.token, env);
    } else {
      var call := Call(op, env);
      SessionsChangeSo(cfg, s, call);
      SessionsChangeSo(cfg, t, call);
      ChangedSame(s.sessions, t.sessions, env.now, ChangeBy(cfg, call, AuthStep(cfg, s, op, env).1));
      if op.CleanUp? {
        CleanupCounts(cfg, s, t, env);
      }
    }
  }

  lemma CleanupCounts(cfg: Config, s: Auth, t: Auth, env: Env)
    requires SameLiveSessions(s.sessions, t.sessions, env.now)
    ensures SameVerdict(CleanUp, s.sessions, t.sessions, env.now,
                        AuthStep(cfg, s, CleanUp, env).1, AuthStep(cfg, t, CleanUp, env).1)
  {
    forall token
      ensures Live(s.sessions, token, env.now) <==> token in WithoutExpired(s.sessions, env.now)
      ensures Live(t.sessions, token, env.now) <==> token in WithoutExpired(t.sessions, env.now)
    {
    }
    assert WithoutExpired(s.sessions, env.now) == WithoutExpired(t.sessions, env.now);
  }

  lemma ChangedSame(m: Sessions, m': Sessions, now: int, change: Change)
    requires SameLiveSessions(m, m', now) && (change.DropExpired? ==> change.now == now)
    ensures SameLiveSessions(Changed(m, change), Changed(m', change), now)
  {
    hide SameLiveSessions, WithoutUser, WithoutExpired;
    var session := if change.Issue? then change.session else Session("", "", 0);
    SameLiveKept(m, m', now, session.token, session, if change.DropUser? then change.user else "");
  }

  /** Asking about one session: live in both or in neither. */
  lemma AskedSame(cfg: Config, s: Auth, t: Auth, op: Op, token: string, env: Env)
    requires SameLive(s, t, env.now)
    requires op == ValidateSession(token) || op == RefreshSession(token) || op == RevokeSession(token)
    ensures SameLive(AuthStep(cfg, s, op, env).0, AuthStep(cfg, t, op, env).0, env.now)
    ensures SameVerdict(op, s.sessions, t.sessions, env.now, AuthStep(cfg, s, op, env).1, AuthStep(cfg, t, op, env).1)
  {
    var m, m', now := s.sessions, t.sessions, env.now;
    assert Live(m, token, now) <==> Live(m', token, now);
    assert token in m ==> m[token].token == token;
    assert token in m' ==> m'[token].token == token;
    if Live(m, token, now) {
      assert m[token] == m'[token];
      var renewed := m[token].(expires := now + cfg.sessionTTL);
      hide SameLiveSessions;
      SameLiveKept(m, m', now, token, renewed, "");
    } else {
      hide SameLiveSessions;
      SameLiveKept(m, m', now, token, Session(token, "", 0), "");
    }
  }

  /** The run in which call i is preceded, at its clock reading, by a cleanup wherever cleans[i]. */
  function AfterCleaned(cfg: Config, s: Auth, calls: seq<Call>, cleans: seq<bool>): Auth
    requires |cleans| == |calls|
    decreases |calls|, 0
  {
    if calls == [] then s
    else
      var n := |calls| - 1;
      AuthStep(cfg, BeforeCall(cfg, s, calls[..n], cleans[..n], calls[n], cleans[n]), calls[n].op, calls[n].env).0
  }

  function BeforeCall(cfg: Config, s: Auth, calls: seq<Call>, cleans: seq<bool>, call: Call, clean: bool): Auth
    requires |cleans| == |calls|
    decreases |calls|, 1
  {
    var t := AfterCleaned(cfg, s, calls, cleans);
    if clean then CleanUpStep(t, call.env).0 else t
  }

  /** Where call i finds the authenticator in that run. */
  function CleanedAt(cfg: Config, s: Auth, calls: seq<Call>, cleans: seq<bool>, i: nat): Auth
    requires |cleans| == |calls| && i < |calls|
  {
    BeforeCall(cfg, s, calls[..i], cleans[..i], calls[i], cleans[i])
  }

  lemma CleanedFirst(cfg: Config, s: Auth, calls: seq<Call>, cleans: seq<bool>)
    requires 0 < |cleans| == |calls|
    ensures CleanedAt(cfg, s, calls, cleans, 0) == if cleans[0] then CleanUpStep(s, calls[0].env).0 else s
  {
    hide AuthStep, CleanUpStep;
    assert calls[..0] == [] && cleans[..0] == [];
    assert AfterCleaned(cfg, s, calls[..0], cleans[..0]) == s;
  }

  lemma CleanedNext(cfg: Config, s: Auth, calls: seq<Call>, cleans: seq<bool>, i: nat)
    requires |cleans| == |calls| && 0 < i < |calls|
    ensures var t := AuthStep(cfg, CleanedAt(cfg, s, calls, cleans, i - 1), calls[i - 1].op, calls[i - 1].env).0;
      CleanedAt(cfg, s, calls, cleans, i) == if cleans[i] then CleanUpStep(t, calls[i].env).0 else t
  {
    hide AuthStep, CleanUpStep;
    var n := i - 1;
    var t := BeforeCall(cfg, s, calls[..n], cleans[..n], calls[n], cleans[n]);
    assert calls[..i][..n] == calls[..n] && cleans[..i][..n] == cleans[..n];
    assert AfterCleaned(cfg, s, calls[..i], cleans[..i]) == AuthStep(cfg, t, calls[n].op, calls[n].env).0;
  }

  /** The answer of call i in that run. */
  function CleanedAnswer(cfg: Config, s: Auth, calls: seq<Call>, cleans: seq<bool>, i: nat): Answer
    requires |cleans| == |calls| && i < |calls|
  {
    AuthStep(cfg, CleanedAt(cfg, s, calls, cleans, i), calls[i].op, calls[i].env).1
  }

  /** Cleanups inserted anywhere change no later verdict. */
  lemma {:induction false} CleanupInvisible(cfg: Config, s: Auth, calls: seq<Call>, cleans: seq<bool>, i: nat)
    requires s.sessions == map[] && Monotone(calls) && |cleans| == |calls|
    requires i < |calls|
    ensures SameLive(After(cfg, s, calls[..i]), CleanedAt(cfg, s, calls, cleans, i), calls[i].env.now)
    ensures SameVerdict(calls[i].op,
      After(cfg, s, calls[..i]).sessions, CleanedAt(cfg, s, calls, cleans, i).sessions, calls[i].env.now,
      AnswerOf(cfg, s, calls, i), CleanedAnswer(cfg, s, calls, cleans, i))
  {
    var env := calls[i].env;
    if i > 0 {
      var n := i - 1;
      CleanupInvisible(cfg, s, calls, cleans, n);
      var t := CleanedAt(cfg, s, calls, cleans, n);
      StepSame(cfg, After(cfg, s, calls[..n]), t, calls[n].op, calls[n].env);
      AfterNext(cfg, s, calls, n);
      CleanedNext(cfg, s, calls, cleans, i);
      hide *;
      CleanedIsSame(After(cfg, s, calls[..i]), AuthStep(cfg, t, calls[n].op, calls[n].env).0, env, calls[n].env.now);
    } else {
      assert calls[..0] == [] && cleans[..0] == [];
      SameAsItself(s, env.now);
      CleanedIsSame(s, s, env, env.now);
      assert After(cfg, s, calls[..0]) == s && AfterCleaned(cfg, s, calls[..0], cleans[..0]) == s;
      hide AuthStep, SameLive, SameVerdict, CleanUpStep;
    }
    StepSame(cfg, After(cfg, s, calls[..i]), CleanedAt(cfg, s, calls, cleans, i), calls[i].op, env);
  }

  lemma SameAsItself(s: Auth, now: int)
    requires s.sessions == map[]
    ensures SameLive(s, s, now)
  {
  }

  // ---------------------------------------------------------------- revocation persists

  /** The user's key is revoked on the medium. */
  predicate Revoked(s: Auth, user: string) {
    && UserFile(user, Pub) in s.files && UserFile(user, Rev) in s.files
    && s.files[UserFile(user, Rev)].Revocation? && s.files[UserFile(user, Rev)].at != 0
  }

  predicate HasSession(s: Auth, user: string) {
    exists token :: token in s.sessions && s.sessions[token].user == user
  }

  lemma RevokedOnSuccess(s: Auth, user: string, password: string, env: Env)
    requires RevokeKeyStep(s, user, password, env).1.Ok?
    ensures var s' := RevokeKeyStep(s, user, password, env).0;
      Revoked(s', user) && !HasSession(s', user) && (user in s'.challenges <==> user in s.challenges)
  {
    hide CheckPassword;
  }

  lemma {:induction false} WriteAllTouchesOnly(files: Medium, writes: seq<(UserFile, Content)>, env: Env, f: UserFile)
    requires forall i :: 0 <= i < |writes| ==> writes[i].0 != f
    ensures var b := WriteAll(files, writes, env).0; (f in b <==> f in files) && (f in files ==> b[f] == files[f])
  {
    if writes != [] {
      WriteAllTouchesOnly(files, writes[..|writes| - 1], env, f);
    }
  }

  lemma {:induction false} WriteAllKeeps(files: Medium, writes: seq<(UserFile, Content)>, env: Env, f: UserFile)
    requires f in files
    ensures f in WriteAll(files, writes, env).0
  {
    if writes != [] {
      WriteAllKeeps(files, writes[..|writes| - 1], env, f);
    }
  }

  lemma {:induction false} DeleteTouchesOwn(files: Medium, user: string, n: nat, env: Env, f: UserFile)
    requires n <= |ARTIFACTS| && f.user != user
    ensures var b := DeleteArtifacts(files, user, n, env).0;
      (f in b <==> f in files) && (f in files ==> b[f] == files[f])
  {
    if n > 0 {
      DeleteTouchesOwn(files, user, n - 1, env, f);
    }
  }

  /** Nothing but deleting that user undoes a revocation; rotating the key pair does not, and the
      user cannot be registered anew. */
  lemma RevocationKept(cfg: Config, s: Auth, op: Op, env: Env, user: string)
    requires Revoked(s, user) && op != DeleteUser(user)
    ensures Revoked(AuthStep(cfg, s, op, env).0, user)
  {
    var pub, rev := UserFile(user, Pub), UserFile(user, Rev);
    match op
    case Register(u, password) =>
      if u != user {
        WriteAllTouchesOnly(s.files, RegisterWrites(u, password, env), env, pub);
        WriteAllTouchesOnly(s.files, RegisterWrites(u, password, env), env, rev);
      }
      hide WriteAll;
    case RotateKeyPair(u, _, newPassword) =>
      WriteAllKeeps(s.files, RotateWrites(u, newPassword, env), env, pub);
      WriteAllTouchesOnly(s.files, RotateWrites(u, newPassword, env), env, rev);
      hide WriteAll;
    case DeleteUser(u) =>
      DeleteTouchesOwn(s.files, u, |ARTIFACTS|, env, pub);
      DeleteTouchesOwn(s.files, u, |ARTIFACTS|, env, rev);
      hide DeleteArtifacts;
    case _ =>
      hide CheckPassword, IsRevoked, WithoutUser, WithoutExpired;
  }

  /** When `.rev` can be read, the revoked user gets neither a login nor a challenge; and a session
      only out of a challenge that was pending. */
  lemma RevokedIsShutOut(cfg: Config, s: Auth, op: Op, env: Env, user: string)
    requires Revoked(s, user) && op != DeleteUser(user) && UserFile(user, Rev) !in env.badReads
    ensures op.Login? && op.user == user ==> AuthStep(cfg, s, op, env).1 == Fail(KeyRevoked)
    ensures op == CreateChallenge(user) ==> AuthStep(cfg, s, op, env).1 == Fail(KeyRevoked)
    ensures user !in s.challenges ==> user !in AuthStep(cfg, s, op, env).0.challenges
    ensures user !in s.challenges && !HasSession(s, user) ==> !HasSession(AuthStep(cfg, s, op, env).0, user)
  {
    hide WriteAll, DeleteArtifacts, CheckPassword;
    var s' := AuthStep(cfg, s, op, env).0;
    if user !in s.challenges && !HasSession(s, user) {
      if !AsksFor(op) {
        SessionsChangeSo(cfg, s, Call(op, env));
      }
      forall token | token in s'.sessions
        ensures s'.sessions[token].user != user
      {
        RevokedSessionOrigin(cfg, s, op, env, user, token);
      }
    }
  }

  lemma RevokedSessionOrigin(cfg: Config, s: Auth, op: Op, env: Env, user: string, token: string)
    requires Revoked(s, user) && UserFile(user, Rev) !in env.badReads
    requires user !in s.challenges && !HasSession(s, user)
    requires token in AuthStep(cfg, s, op, env).0.sessions
    ensures AuthStep(cfg, s, op, env).0.sessions[token].user != user
  {
    hide WriteAll, DeleteArtifacts, CheckPassword;
    if AsksFor(op) {
      assert op.token in s.sessions ==> s.sessions[op.token].user != user;
      assert token in s.sessions ==> s.sessions[token].user != user;
    } else {
      SessionsChangeSo(cfg, s, Call(op, env));
      assert token in s.sessions ==> s.sessions[token].user != user;
    }
  }

  predicate UserStays(calls: seq<Call>, user: string) {
    forall i :: 0 <= i < |calls| ==> calls[i].op != DeleteUser(user) && UserFile(user, Rev) !in calls[i].env.badReads
  }

  /** A login or a challenge for the user. */
  predicate AsksToEnter(op: Op, user: string) {
    (op.Login? && op.user == user) || op == CreateChallenge(user)
  }

  /** After `RevokeKey` returns without error, in every continuation that does not delete the user
      and can read `.rev`: no login or challenge for the user succeeds, key rotations included; and
      if no challenge was pending then, the user has no session in any later state. */
  lemma {:induction false} RevocationPersists(cfg: Config, s: Auth, calls: seq<Call>, user: string, i: nat)
    requires Revoked(s, user) && UserStays(calls, user) && i <= |calls|
    ensures Revoked(After(cfg, s, calls[..i]), user)
    ensures i < |calls| && AsksToEnter(calls[i].op, user) ==> AnswerOf(cfg, s, calls, i) == Fail(KeyRevoked)
    ensures user !in s.challenges && !HasSession(s, user) ==>
      user !in After(cfg, s, calls[..i]).challenges && !HasSession(After(cfg, s, calls[..i]), user)
  {
    hide AuthStep, Revoked, HasSession;
    if i > 0 {
      RevocationPersists(cfg, s, calls, user, i - 1);
      var t := After(cfg, s, calls[..i - 1]);
      AfterNext(cfg, s, calls, i - 1);
      RevocationKept(cfg, t, calls[i - 1].op, calls[i - 1].env, user);
      RevokedIsShutOut(cfg, t, calls[i - 1].op, calls[i - 1].env, user);
    }
    if i < |calls| {
      RevokedIsShutOut(cfg, After(cfg, s, calls[..i]), calls[i].op, calls[i].env, user);
    }
  }

  /** The same, from the call itself on. */
  lemma AfterRevokeKey(cfg: Config, s: Auth, password: string, env: Env, calls: seq<Call>, user: string, i: nat)
    requires RevokeKeyStep(s, user, password, env).1.Ok? && UserStays(calls, user) && i <= |calls|
    ensures var s' := RevokeKeyStep(s, user, password, env).0;
      && (i < |calls| && AsksToEnter(calls[i].op, user) ==> AnswerOf(cfg, s', calls, i) == Fail(KeyRevoked))
      && (user !in s.challenges ==> !HasSession(After(cfg, s', calls[..i]), user))
  {
    hide RevokeKeyStep, HasSession, AnswerOf;
    RevokedOnSuccess(s, user, password, env);
    RevocationPersists(cfg, RevokeKeyStep(s, user, password, env).0, calls, user, i);
  }

  /** Both conditions are needed. `ValidateResponse` does not look at `.rev`: some response gives a
      revoked user a session exactly when a challenge is pending, unexpired, and the key readable. */
  lemma PendingChallengeExactly(cfg: Config, s: Auth, env: Env, user: string)
    requires Revoked(s, user)
    ensures (exists signature :: AuthStep(cfg, s, ValidateResponse(user, signature), env).1.Ok?) <==>
      && user in s.challenges && env.now <= s.challenges[user].expires
      && UserFile(user, Pub) !in env.badReads && s.files[UserFile(user, Pub)].PublicKey?
  {
    if user in s.challenges && env.now <= s.challenges[user].expires
       && UserFile(user, Pub) !in env.badReads && s.files[UserFile(user, Pub)].PublicKey? {
      var signature := Signed(s.files[UserFile(user, Pub)].pair, s.challenges[user].nonce);
      assert AuthStep(cfg, s, ValidateResponse(user, signature), env).1.Ok?;
    }
  }

  /** And a `.rev` that cannot be read counts as none: a revoked user's login succeeds exactly when
      reading `.rev` fails and the password is right. */
  lemma UnreadableRevocationExactly(cfg: Config, s: Auth, env: Env, user: string, password: string)
    requires Revoked(s, user)
    ensures AuthStep(cfg, s, Login(user, password), env).1.Ok? <==>
      UserFile(user, Rev) in env.badReads && CheckPassword(s.files, user, password, env).Ok?
  {
    hide CheckPassword;
  }

  /** Nor does it hinder a challenge: a revoked user gets one exactly when reading `.rev` fails and the
      public key can be read and is one. */
  lemma UnreadableRevocationChallenges(cfg: Config, s: Auth, env: Env, user: string)
    requires Revoked(s, user)
    ensures AuthStep(cfg, s, CreateChallenge(user), env).1.Ok? <==>
      && UserFile(user, Rev) in env.badReads
      && UserFile(user, Pub) !in env.badReads && s.files[UserFile(user, Pub)].PublicKey?
  {
  }
}
