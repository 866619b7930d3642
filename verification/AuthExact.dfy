/** When the operations of the authenticator (go/auth/auth.go) succeed, told by the user's files; and that
    what they hand out is what they keep. */
module AuthExact {
  import opened Wrappers
  import opened SessionStores
  import opened AuthSpec
  import opened AuthRuns
  import opened AuthUsers

  // ---------------------------------------------------------------- users

  /** A registration succeeds exactly if the user is not there and all five files can be written. */
  lemma RegistersExactly(s: Auth, user: string, password: string, env: Env)
    ensures var (s', r) := RegisterStep(s, user, password, env);
      var bad := env.badWrites;
      && (r == Fail(UserExists) <==> UserFile(user, Pub) in s.files)
      && (r == Fail(UserExists) ==> s' == s)
      && (r.Ok? <==>
            && UserFile(user, Pub) !in s.files
            && UserFile(user, Pub) !in bad && UserFile(user, Key) !in bad && UserFile(user, Rev) !in bad
            && UserFile(user, Hash) !in bad && UserFile(user, Meta) !in bad)
      && s'.sessions == s.sessions && s'.challenges == s.challenges
      && (forall f: UserFile :: f.user != user || f.ext == Lthn ==> At(s'.files, f) == At(s.files, f))
  {
    var writes := RegisterWrites(user, password, env);
    forall f: UserFile | f.user != user || f.ext == Lthn
      ensures At(RegisterStep(s, user, password, env).0.files, f) == At(s.files, f)
    {
      WriteAllTouchesOnly(s.files, writes, env, f);
    }
    WriteAllAt(s.files, writes, env, 0);
    hide WriteAll;
    assert writes[0].0 == UserFile(user, Pub) && writes[1].0 == UserFile(user, Key);
    assert writes[2].0 == UserFile(user, Rev) && writes[3].0 == UserFile(user, Hash);
    assert writes[4].0 == UserFile(user, Meta);
  }

  /** A rotation succeeds exactly if the user is there, the private key and the metadata can be read and
      belong together, the old password opens the key, and all four files can be written. */
  lemma RotatesExactly(s: Auth, user: string, oldPassword: string, newPassword: string, env: Env)
    ensures var (s', r) := RotateKeyPairStep(s, user, oldPassword, newPassword, env);
      var bad, key, meta := env.badWrites, UserFile(user, Key), UserFile(user, Meta);
      && (r.Ok? <==>
            && UserFile(user, Pub) in s.files
            && key in s.files && key !in env.badReads && meta in s.files && meta !in env.badReads
            && (exists pair, password {:trigger PrivateKey(pair, password)} ::
                  && s.files[key] == PrivateKey(pair, password) && s.files[meta] == Metadata(pair)
                  && (password == "" || password == oldPassword))
            && UserFile(user, Pub) !in bad && key !in bad && meta !in bad && UserFile(user, Hash) !in bad)
      && (r == Fail(UserNotFound) <==> UserFile(user, Pub) !in s.files)
      && (r.Fail? && r != Fail(WriteFailed) ==> s' == s)
      && s'.challenges == s.challenges
      && (forall f: UserFile :: f.user != user || f.ext == Rev || f.ext == Lthn ==> At(s'.files, f) == At(s.files, f))
  {
    var writes := RotateWrites(user, newPassword, env);
    forall f: UserFile | f.user != user || f.ext == Rev || f.ext == Lthn
      ensures At(RotateKeyPairStep(s, user, oldPassword, newPassword, env).0.files, f) == At(s.files, f)
    {
      WriteAllTouchesOnly(s.files, writes, env, f);
    }
    WriteAllAt(s.files, writes, env, 0);
    hide WriteAll;
    assert writes[0].0 == UserFile(user, Pub) && writes[1].0 == UserFile(user, Key);
    assert writes[2].0 == UserFile(user, Meta) && writes[3].0 == UserFile(user, Hash);
    var key := UserFile(user, Key);
    if key in s.files && s.files[key].PrivateKey? {
      assert s.files[key] == PrivateKey(s.files[key].pair, s.files[key].password);
    }
  }

  /** A deletion succeeds exactly if the user is there, is not the server, and no artifact is stuck. */
  lemma DeletesExactly(s: Auth, user: string, env: Env)
    ensures var (s', r) := DeleteUserStep(s, user, env);
      && (r.Ok? <==>
            && user != "server" && UserFile(user, Pub) in s.files
            && forall e: Ext :: UserFile(user, e) in s.files ==> UserFile(user, e) !in env.badDeletes)
      && (user == "server" ==> r == Fail(ProtectedUser) && s' == s)
      && s'.challenges == s.challenges
      && (forall f: UserFile :: f.user != user ==> At(s'.files, f) == At(s.files, f))
  {
    assert PROTECTED == "server";
    if user != PROTECTED && UserFile(user, Pub) in s.files {
      ArtifactsLeft(s, user, env);
      forall f: UserFile | f.user != user
        ensures At(DeleteUserStep(s, user, env).0.files, f) == At(s.files, f)
      {
        DeleteTouchesOwn(s.files, user, |ARTIFACTS|, env, f);
      }
      AllFree(s.files, user, env);
      hide DeleteArtifacts, DeleteUserStep;
    }
  }

  lemma AllFree(files: Medium, user: string, env: Env)
    ensures (forall e: Ext :: UserFile(user, e) in files ==> UserFile(user, e) !in env.badDeletes) <==>
      && !Stuck(files, user, Pub, env) && !Stuck(files, user, Key, env) && !Stuck(files, user, Rev, env)
      && !Stuck(files, user, Meta, env) && !Stuck(files, user, Hash, env) && !Stuck(files, user, Lthn, env)
  {
    if forall e: Ext :: UserFile(user, e) in files ==> UserFile(user, e) !in env.badDeletes {
      assert !Stuck(files, user, Pub, env) && !Stuck(files, user, Key, env) && !Stuck(files, user, Rev, env);
    } else {
      var e: Ext :| UserFile(user, e) in files && UserFile(user, e) in env.badDeletes;
      assert e.Pub? || e.Key? || e.Rev? || e.Meta? || e.Hash? || e.Lthn?;
    }
  }

  // ---------------------------------------------------------------- revoking

  /** A key is revoked exactly by the password that the user's files fit. */
  lemma RevokesExactly(s: Auth, user: string, password: string, env: Env)
    ensures var (s', r) := RevokeKeyStep(s, user, password, env);
      && (r.Ok? <==>
            && UserFile(user, Pub) in s.files && PasswordFits(s.files, user, password, env)
            && UserFile(user, Rev) !in env.badWrites)
      && (r.Ok? ==> s'.files == s.files[UserFile(user, Rev) := Revocation(env.now)])
      && (r.Fail? ==> s' == s)
  {
  }

  /** From a registration or a completed rotation on, in every run that neither deletes the user nor
      completes a rotation, exactly that password revokes, if the record can be written. */
  lemma RevokingExactly(cfg: Config, s: Auth, calls: seq<Call>, user: string, password: string, i: nat)
    requires Accepts(s.files, user, password) && KeepsPassword(cfg, s, calls, user) && i < |calls|
    requires calls[i].op.RevokeKey? && calls[i].op.user == user && Readable(calls[i].env, user)
    ensures AnswerOf(cfg, s, calls, i).Ok? <==>
      calls[i].op.password == password && UserFile(user, Rev) !in calls[i].env.badWrites
  {
    hide After;
    AcceptsThroughout(cfg, s, calls, user, password, i);
    RevokesExactly(After(cfg, s, calls[..i]), user, calls[i].op.password, calls[i].env);
    assert UserFile(user, Hash) !in calls[i].env.badReads;
  }

  // ---------------------------------------------------------------- what is handed out is kept

  /** A call that hands out a session. */
  predicate Grants(op: Op) {
    op.Login? || op.ValidateResponse? || op.RefreshSession?
  }

  /** What a grant hands out: for a login or response, the drawn token, this user, now plus the TTL; and for
      all of them exactly what is granted from then on. */
  lemma HandedOutIsGranted(cfg: Config, s: Auth, calls: seq<Call>, i: nat, session: Session)
    requires s.sessions == map[] && Monotone(calls) && i < |calls| && Grants(calls[i].op)
    requires AnswerOf(cfg, s, calls, i) == Ok(Granted(session))
    ensures session.expires == calls[i].env.now + cfg.sessionTTL
    ensures calls[i].op.RefreshSession? ==> session.token == calls[i].op.token
    ensures !calls[i].op.RefreshSession? ==> session.token == calls[i].env.token && session.user == calls[i].op.user
    ensures GrantOf(cfg, s, calls[..i + 1], session.token) == Some(Grant(session.user, session.expires))
  {
    var call, t := calls[i], After(cfg, s, calls[..i]);
    if call.op.RefreshSession? {
      RunHolds(cfg, s, calls, i, call.op.token, call.env.now);
    }
    HandedOut(cfg, t, call, GrantOf(cfg, s, calls[..i], session.token), session);
    assert calls[..i + 1][..i] == calls[..i];
    AnswerOfPrefix(cfg, s, calls, i + 1);
  }

  lemma HandedOut(cfg: Config, t: Auth, call: Call, g: Option<Grant>, session: Session)
    requires Grants(call.op) && AuthStep(cfg, t, call.op, call.env).1 == Ok(Granted(session))
    requires call.op.RefreshSession? && call.op.token == session.token ==>
      Holds(t.sessions, g, session.token, call.env.now)
    requires call.op.RefreshSession? && call.op.token in t.sessions ==> t.sessions[call.op.token].token == call.op.token
    ensures session.expires == call.env.now + cfg.sessionTTL
    ensures call.op.RefreshSession? ==> session.token == call.op.token
    ensures !call.op.RefreshSession? ==> session.token == call.env.token && session.user == call.op.user
    ensures GrantAfter(cfg, g, call, AuthStep(cfg, t, call.op, call.env).1, session.token) ==
      Some(Grant(session.user, session.expires))
  {
    hide CheckPassword, IsRevoked;
  }

  /** The call neither renews nor ends the session. */
  predicate Leaves(call: Call, answer: Answer, session: Session) {
    match call.op
    case Login(_, _) => call.env.token != session.token
    case ValidateResponse(_, _) => call.env.token != session.token
    case RefreshSession(token) => token != session.token
    case RevokeSession(token) => token != session.token
    case RotateKeyPair(user, _, _) => user != session.user || answer.Fail?
    case RevokeKey(user, _) => user != session.user || answer.Fail?
    case DeleteUser(user) => user != session.user || answer.Fail?
    case _ => true
  }

  predicate Undisturbed(cfg: Config, s: Auth, calls: seq<Call>, i: nat, j: nat, session: Session)
    requires j <= |calls|
  {
    forall n :: i <= n < j ==> Leaves(calls[n], AnswerOf(cfg, s, calls, n), session)
  }

  lemma {:induction false} GrantStays(cfg: Config, s: Auth, calls: seq<Call>, i: nat, j: nat, session: Session)
    requires i <= j <= |calls| && Undisturbed(cfg, s, calls, i, j, session)
    requires GrantOf(cfg, s, calls[..i], session.token) == Some(Grant(session.user, session.expires))
    ensures GrantOf(cfg, s, calls[..j], session.token) == Some(Grant(session.user, session.expires))
  {
    hide AnswerOf;
    if i < j {
      GrantStays(cfg, s, calls, i, j - 1, session);
      assert calls[..j][..j - 1] == calls[..j - 1];
      AnswerOfPrefix(cfg, s, calls, j);
      assert Leaves(calls[j - 1], AnswerOf(cfg, s, calls, j - 1), session);
    }
  }

  /** So whoever shows the token of a session that was handed out, by a login, a response or a refresh, gets
      that very session back until it expires, unless it was renewed or ended in between; and not after. */
  lemma HandedOutValidates(cfg: Config, s: Auth, calls: seq<Call>, i: nat, j: nat, session: Session)
    requires s.sessions == map[] && Monotone(calls) && i < j < |calls| && Grants(calls[i].op)
    requires AnswerOf(cfg, s, calls, i) == Ok(Granted(session))
    requires Undisturbed(cfg, s, calls, i + 1, j, session) && calls[j].op == ValidateSession(session.token)
    ensures if calls[j].env.now <= session.expires then AnswerOf(cfg, s, calls, j) == Ok(Granted(session))
            else AnswerOf(cfg, s, calls, j).Fail?
  {
    HandedOutIsGranted(cfg, s, calls, i, session);
    GrantStays(cfg, s, calls, i + 1, j, session);
    ValidExactly(cfg, s, calls, j, session.token);
  }
}
