/** The authenticator of go/auth/auth.go over the in-memory session store. */
module AuthService {
  import opened Wrappers
  import opened SessionStores
  import opened AuthSpec

  class Authenticator {
    const cfg: Config
    const store: MemorySessionStore
    var files: Medium
    var challenges: map<string, Challenge>

    ghost function View(): Auth
      reads this, store
    {
      Auth(files, challenges, store.sessions)
    }

    constructor (cfg: Config, files: Medium)
      ensures View() == Auth(files, map[], map[]) && this.cfg == cfg && fresh(store)
    {
      this.cfg, this.files, this.challenges := cfg, files, map[];
      store := new MemorySessionStore();
    }

    // -------------------------------------------------------------- the medium

    method ReadFile(f: UserFile, env: Env) returns (r: Option<Content>)
      ensures r == Read(files, f, env)
    {
      r := if f in files && f !in env.badReads then Some(files[f]) else None;
    }

    method WriteFile(f: UserFile, c: Content, env: Env) returns (ok: bool)
      modifies `files
      ensures ok == (f !in env.badWrites)
      ensures files == Write(old(files), f, c, env)
    {
      ok := f !in env.badWrites;
      if ok {
        files := files[f := c];
      }
    }

    /** One write after the other, up to the first that fails. */
    method WriteInOrder(writes: seq<(UserFile, Content)>, env: Env) returns (ok: bool)
      modifies `files
      ensures (files, ok) == WriteAll(old(files), writes, env)
    {
      ok := true;
      var n := 0;
      while n < |writes| && ok
        invariant 0 <= n <= |writes|
        invariant (files, ok) == WriteAll(old(files), writes[..n], env)
        decreases |writes| - n, ok
      {
        assert writes[..n + 1][..n] == writes[..n];
        ok := WriteFile(writes[n].0, writes[n].1, env);
        n := n + 1;
      }
      if !ok {
        WriteStopped(old(files), writes, n, env);
      }
      assert writes[..|writes|] == writes;
    }

    method RevokedNow(user: string, env: Env) returns (revoked: bool)
      ensures revoked <==> RevokedOnFile(files, user, env)
    {
      var content := ReadFile(UserFile(user, Rev), env);
      if content.None? {
        return false;
      }
      if content.value == Placeholder || !content.value.Revocation? {
        return false;
      }
      revoked := content.value.at != 0;
      assert content.value == Revocation(content.value.at);
    }

    // -------------------------------------------------------------- challenge and response

    method CreateChallenge(user: string, env: Env) returns (r: Answer)
      modifies `challenges
      ensures (View(), r) == CreateChallengeStep(cfg, old(View()), user, env)
      ensures r == Fail(KeyRevoked) <==> RevokedOnFile(files, user, env)
      ensures r.Ok? <==> !RevokedOnFile(files, user, env) && KeyOnFile(files, user, env)
      ensures r.Ok? ==>
        && challenges == old(challenges)[user := Challenge(env.nonce, env.now + cfg.challengeTTL)]
        && r.value == Challenged(challenges[user])
      ensures r.Fail? ==> challenges == old(challenges)
    {
      var revoked := RevokedNow(user, env);
      if revoked {
        return Fail(KeyRevoked);
      }
      var key := ReadFile(UserFile(user, Pub), env);
      if key.None? {
        return Fail(UserNotFound);
      }
      if !key.value.PublicKey? {
        return Fail(BadKey);
      }
      var challenge := Challenge(env.nonce, env.now + cfg.challengeTTL);
      challenges := challenges[user := challenge];
      r := Ok(Challenged(challenge));
    }

    method ValidateResponse(user: string, signature: Signature, env: Env) returns (r: Answer)
      modifies `challenges, store
      ensures (View(), r) == ValidateResponseStep(cfg, old(View()), user, signature, env)
      ensures challenges == old(challenges) - {user}
      ensures r.Ok? <==>
        && user in old(challenges) && env.now <= old(challenges)[user].expires && KeyOnFile(files, user, env)
        && signature == Signed(files[UserFile(user, Pub)].pair, old(challenges)[user].nonce)
      ensures r == Fail(NoChallenge) <==> user !in old(challenges)
      ensures r == Fail(ChallengeExpired) <==> user in old(challenges) && env.now > old(challenges)[user].expires
      ensures r.Ok? ==>
        && store.sessions == old(store.sessions)[env.token := Session(env.token, user, env.now + cfg.sessionTTL)]
        && r.value == Granted(store.sessions[env.token])
      ensures r.Fail? ==> store.sessions == old(store.sessions)
    {
      if user !in challenges {
        return Fail(NoChallenge);
      }
      var challenge := challenges[user];
      challenges := challenges - {user};
      if env.now > challenge.expires {
        return Fail(ChallengeExpired);
      }
      var key := ReadFile(UserFile(user, Pub), env);
      if key.None? {
        return Fail(UserNotFound);
      }
      if !key.value.PublicKey? || signature != Signed(key.value.pair, challenge.nonce) {
        return Fail(BadSignature);
      }
      r := NewSession(user, env);
    }

    method NewSession(user: string, env: Env) returns (r: Answer)
      modifies store
      ensures (View(), r) == CreateSession(cfg, old(View()), user, env)
      ensures store.sessions == old(store.sessions)[env.token := Session(env.token, user, env.now + cfg.sessionTTL)]
      ensures r == Ok(Granted(store.sessions[env.token]))
    {
      var session := Session(env.token, user, env.now + cfg.sessionTTL);
      store.Set(session);
      r := Ok(Granted(session));
    }

    // -------------------------------------------------------------- sessions

    method ValidateSession(token: string, env: Env) returns (r: Answer)
      modifies store
      ensures (View(), r) == ValidateSessionStep(old(View()), token, env)
      ensures r.Ok? <==> token in old(store.sessions) && env.now <= old(store.sessions)[token].expires
      ensures r.Ok? ==> store.sessions == old(store.sessions) && r.value == Granted(store.sessions[token])
      ensures r.Fail? ==> store.sessions == old(store.sessions) - {token}
      ensures r == Fail(SessionNotFound) <==> token !in old(store.sessions)
    {
      var got := store.Get(token);
      if got.Fail? {
        return Fail(SessionNotFound);
      }
      if env.now > got.value.expires {
        var _ := store.Delete(token);
        return Fail(SessionExpired);
      }
      r := Ok(Granted(got.value));
    }

    method RefreshSession(token: string, env: Env) returns (r: Answer)
      modifies store
      ensures (View(), r) == RefreshSessionStep(cfg, old(View()), token, env)
      ensures r.Ok? <==> token in old(store.sessions) && env.now <= old(store.sessions)[token].expires
      ensures r.Ok? ==>
        var renewed := old(store.sessions)[token].(expires := env.now + cfg.sessionTTL);
        r.value == Granted(renewed) && store.sessions == old(store.sessions)[renewed.token := renewed]
      ensures r.Fail? ==> store.sessions == old(store.sessions) - {token}
      ensures r == Fail(SessionNotFound) <==> token !in old(store.sessions)
    {
      var got := store.Get(token);
      if got.Fail? {
        return Fail(SessionNotFound);
      }
      if env.now > got.value.expires {
        var _ := store.Delete(token);
        return Fail(SessionExpired);
      }
      var session := got.value.(expires := env.now + cfg.sessionTTL);
      store.Set(session);
      r := Ok(Granted(session));
    }

    method RevokeSession(token: string) returns (r: Answer)
      modifies store
      ensures (View(), r) == RevokeSessionStep(old(View()), token)
      ensures store.sessions == old(store.sessions) - {token}
      ensures r == if token in old(store.sessions) then Ok(Acknowledged) else Fail(SessionNotFound)
    {
      ghost var before := store.sessions;
      var deleted := store.Delete(token);
      assert token !in before ==> before - {token} == before;
      r := if deleted.Ok? then Ok(Acknowledged) else Fail(SessionNotFound);
    }

    method CleanUp(env: Env) returns (r: Answer)
      modifies store
      ensures (View(), r) == CleanUpStep(old(View()), env)
      ensures store.sessions ==
        map t | t in old(store.sessions) && env.now <= old(store.sessions)[t].expires :: old(store.sessions)[t]
      ensures r.Ok? && r.value.CleanedUp? && r.value.count == |old(store.sessions)| - |store.sessions|
    {
      var count := store.Cleanup(env.now);
      r := Ok(CleanedUp(count));
    }

    // -------------------------------------------------------------- users

    method Register(user: string, password: string, env: Env) returns (r: Answer)
      modifies `files
      ensures (View(), r) == RegisterStep(old(View()), user, password, env)
    {
      if UserFile(user, Pub) in files {
        return Fail(UserExists);
      }
      var ok := WriteInOrder(RegisterWrites(user, password, env), env);
      r := if ok then Ok(Acknowledged) else Fail(WriteFailed);
    }

    method DeleteUser(user: string, env: Env) returns (r: Answer)
      modifies `files, store
      ensures (View(), r) == DeleteUserStep(old(View()), user, env)
      ensures user == "server" ==> r == Fail(ProtectedUser) && View() == old(View())
      ensures r == Fail(UserNotFound) <==> user != "server" && UserFile(user, Pub) !in old(files)
      ensures r.Fail? ==> store.sessions == old(store.sessions)
      ensures r.Ok? ==>
        store.sessions ==
          map t | t in old(store.sessions) && old(store.sessions)[t].user != user :: old(store.sessions)[t]
    {
      if user == PROTECTED {
        return Fail(ProtectedUser);
      }
      if UserFile(user, Pub) !in files {
        return Fail(UserNotFound);
      }
      for n := 0 to |ARTIFACTS|
        invariant (files, true) == DeleteArtifacts(old(files), user, n, env)
        invariant forall m :: n <= m < |ARTIFACTS| ==>
          (UserFile(user, ARTIFACTS[m]) in files <==> UserFile(user, ARTIFACTS[m]) in old(files))
        invariant store.sessions == old(store.sessions) && challenges == old(challenges)
      {
        var f := UserFile(user, ARTIFACTS[n]);
        if f in files {
          if f in env.badDeletes {
            DeleteStopped(old(files), user, n + 1, env);
            return Fail(DeleteFailed);
          }
          files := files - {f};
        }
      }
      store.DeleteByUser(user);
      r := Ok(Acknowledged);
    }

    method VerifyPassword(user: string, password: string, env: Env) returns (r: Result<(), AuthError>)
      ensures r.Ok? <==> PasswordFits(files, user, password, env)
      ensures r == Fail(ReadFailed) <==> UserFile(user, Hash) in files && UserFile(user, Hash) in env.badReads
      ensures r == Fail(UserNotFound) <==>
        UserFile(user, Hash) !in files && Read(files, UserFile(user, Lthn), env).None?
      ensures r == Fail(CorruptedHash) <==>
        var hash := UserFile(user, Hash);
        hash in files && hash !in env.badReads && !files[hash].PasswordHash?
      ensures r.Fail? ==> r.error in {ReadFailed, UserNotFound, CorruptedHash, BadPassword}
    {
      if UserFile(user, Hash) in files {
        var stored := ReadFile(UserFile(user, Hash), env);
        if stored.None? {
          return Fail(ReadFailed);
        }
        if !stored.value.PasswordHash? {
          return Fail(CorruptedHash);
        }
        if stored.value.password != password {
          return Fail(BadPassword);
        }
        return Ok(());
      }
      var stored := ReadFile(UserFile(user, Lthn), env);
      if stored.None? {
        return Fail(UserNotFound);
      }
      if stored.value != LegacyHash(password) {
        return Fail(BadPassword);
      }
      r := Ok(());
    }

    /** A legacy login also writes the new hash, if it can. */
    method Login(user: string, password: string, env: Env) returns (r: Answer)
      modifies `files, store
      ensures (View(), r) == LoginStep(cfg, old(View()), user, password, env)
      ensures r == Fail(KeyRevoked) <==> RevokedOnFile(old(files), user, env)
      ensures r.Ok? <==> !RevokedOnFile(old(files), user, env) && PasswordFits(old(files), user, password, env)
      ensures r.Fail? ==> View() == old(View())
      ensures r.Ok? ==>
        && store.sessions == old(store.sessions)[env.token := Session(env.token, user, env.now + cfg.sessionTTL)]
        && r.value == Granted(store.sessions[env.token])
      ensures r.Ok? && UserFile(user, Hash) !in old(files) && UserFile(user, Hash) !in env.badWrites ==>
        files == old(files)[UserFile(user, Hash) := PasswordHash(password)]
      ensures UserFile(user, Hash) in old(files) || UserFile(user, Hash) in env.badWrites ==> files == old(files)
    {
      var revoked := RevokedNow(user, env);
      if revoked {
        return Fail(KeyRevoked);
      }
      var hashed := UserFile(user, Hash) in files;
      var verified := VerifyPassword(user, password, env);
      if verified.Fail? {
        return Fail(verified.error);
      }
      if !hashed {
        var _ := WriteFile(UserFile(user, Hash), PasswordHash(password), env);
      }
      r := NewSession(user, env);
    }

    method RotateKeyPair(user: string, oldPassword: string, newPassword: string, env: Env) returns (r: Answer)
      modifies `files, store
      ensures (View(), r) == RotateKeyPairStep(old(View()), user, oldPassword, newPassword, env)
      ensures r.Fail? ==> store.sessions == old(store.sessions)
    {
      if UserFile(user, Pub) !in files {
        return Fail(UserNotFound);
      }
      var key := ReadFile(UserFile(user, Key), env);
      if key.None? {
        return Fail(ReadFailed);
      }
      var meta := ReadFile(UserFile(user, Meta), env);
      if meta.None? {
        return Fail(ReadFailed);
      }
      if !meta.value.Metadata? || !OpensKey(key.value, meta.value.pair, oldPassword) {
        return Fail(BadMetadata);
      }
      var ok := WriteInOrder(RotateWrites(user, newPassword, env), env);
      if !ok {
        return Fail(WriteFailed);
      }
      store.DeleteByUser(user);
      r := Ok(Acknowledged);
    }

    method RevokeKey(user: string, password: string, env: Env) returns (r: Answer)
      modifies `files, store
      ensures (View(), r) == RevokeKeyStep(old(View()), user, password, env)
      ensures r.Ok? <==>
        && UserFile(user, Pub) in old(files) && PasswordFits(old(files), user, password, env)
        && UserFile(user, Rev) !in env.badWrites
      ensures r.Fail? ==> View() == old(View())
      ensures r.Ok? ==>
        && files == old(files)[UserFile(user, Rev) := Revocation(env.now)]
        && store.sessions ==
          map t | t in old(store.sessions) && old(store.sessions)[t].user != user :: old(store.sessions)[t]
    {
      if UserFile(user, Pub) !in files {
        return Fail(UserNotFound);
      }
      var verified := VerifyPassword(user, password, env);
      if verified.Fail? {
        return Fail(verified.error);
      }
      var ok := WriteFile(UserFile(user, Rev), Revocation(env.now), env);
      if !ok {
        return Fail(WriteFailed);
      }
      store.DeleteByUser(user);
      r := Ok(Acknowledged);
    }

    /** Any operation of the authenticator is the step that its specification gives. */
    method Do(op: Op, env: Env) returns (r: Answer)
      modifies this, store
      ensures (View(), r) == AuthStep(cfg, old(View()), op, env)
    {
      match op
      case Register(user, password) => r := Register(user, password, env);
      case CreateChallenge(user) => r := CreateChallenge(user, env);
      case ValidateResponse(user, signature) => r := ValidateResponse(user, signature, env);
      case ValidateSession(token) => r := ValidateSession(token, env);
      case RefreshSession(token) => r := RefreshSession(token, env);
      case RevokeSession(token) => r := RevokeSession(token);
      case DeleteUser(user) => r := DeleteUser(user, env);
      case Login(user, password) => r := Login(user, password, env);
      case RotateKeyPair(user, oldPassword, newPassword) => r := RotateKeyPair(user, oldPassword, newPassword, env);
      case RevokeKey(user, password) => r := RevokeKey(user, password, env);
      case CleanUp => r := CleanUp(env);
    }
  }

  lemma {:induction false} WriteStopped(files: Medium, writes: seq<(UserFile, Content)>, n: nat, env: Env)
    requires n <= |writes| && !WriteAll(files, writes[..n], env).1
    ensures WriteAll(files, writes, env) == WriteAll(files, writes[..n], env)
    decreases |writes| - n
  {
    if n == |writes| {
      assert writes[..n] == writes;
    } else {
      assert writes[..n + 1][..n] == writes[..n];
      WriteStopped(files, writes, n + 1, env);
    }
  }

  lemma {:induction false} DeleteStopped(files: Medium, user: string, n: nat, env: Env)
    requires n <= |ARTIFACTS| && !DeleteArtifacts(files, user, n, env).1
    ensures DeleteArtifacts(files, user, |ARTIFACTS|, env) == DeleteArtifacts(files, user, n, env)
    decreases |ARTIFACTS| - n
  {
    if n < |ARTIFACTS| {
      DeleteStopped(files, user, n + 1, env);
    }
  }
}
