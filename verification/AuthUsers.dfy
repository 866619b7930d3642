/** Who can log in (go/auth/auth.go): the password that was last set, by registration or by a
    completed rotation, and what a rotation that stops at a failed write leaves behind. */
module AuthUsers {
  import opened Wrappers
  import opened SessionStores
  import opened AuthSpec
  import opened AuthRuns

  function At(files: Medium, f: UserFile): Option<Content> {
    if f in files then Some(files[f]) else None
  }

  predicate Readable(env: Env, user: string) {
    forall f :: f in env.badReads ==> f.user != user
  }

  /** The first n writes all succeed. */
  predicate Written(writes: seq<(UserFile, Content)>, n: nat, env: Env)
    requires n <= |writes|
  {
    forall j :: 0 <= j < n ==> writes[j].0 !in env.badWrites
  }

  /** Writing in order: a file is written exactly when no write up to it fails. */
  lemma {:induction false} WriteAllAt(files: Medium, writes: seq<(UserFile, Content)>, env: Env, i: nat)
    requires i < |writes|
    requires forall j, k :: 0 <= j < k < |writes| ==> writes[j].0 != writes[k].0
    ensures WriteAll(files, writes, env).1 == Written(writes, |writes|, env)
    ensures At(WriteAll(files, writes, env).0, writes[i].0) ==
      if Written(writes, i + 1, env) then Some(writes[i].1) else At(files, writes[i].0)
  {
    var n := |writes| - 1;
    if i < n {
      WriteAllAt(files, writes[..n], env, i);
      assert Written(writes, i + 1, env) == Written(writes[..n], i + 1, env);
    } else if n > 0 {
      WriteAllAt(files, writes[..n], env, 0);
      WriteAllTouchesOnly(files, writes[..n], env, writes[n].0);
    }
    assert n > 0 ==> Written(writes, n, env) == Written(writes[..n], n, env);
  }

  // ---------------------------------------------------------------- one password

  /** The user is there, and this password is the one whose hash is stored. */
  predicate Accepts(files: Medium, user: string, password: string) {
    UserFile(user, Pub) in files && At(files, UserFile(user, Hash)) == Some(PasswordHash(password))
  }

  lemma RegisteredAccepts(s: Auth, user: string, password: string, env: Env)
    requires RegisterStep(s, user, password, env).1.Ok?
    ensures var files := RegisterStep(s, user, password, env).0.files;
      && Accepts(files, user, password)
      && At(files, UserFile(user, Pub)) == Some(PublicKey(env.pair))
      && At(files, UserFile(user, Key)) == Some(PrivateKey(env.pair, password))
      && At(files, UserFile(user, Meta)) == Some(Metadata(env.pair))
      && At(files, UserFile(user, Rev)) == Some(Placeholder)
  {
    hide WriteAll, Written;
    var writes := RegisterWrites(user, password, env);
    forall i | 0 <= i < 5
      ensures At(WriteAll(s.files, writes, env).0, writes[i].0) == Some(writes[i].1)
    {
      WriteAllAt(s.files, writes, env, i);
      WrittenSoFar(writes, i + 1, env);
    }
    assert writes[0].0 == UserFile(user, Pub) && writes[1].0 == UserFile(user, Key) &&
      writes[2].0 == UserFile(user, Rev);
    assert writes[3].0 == UserFile(user, Hash) && writes[4].0 == UserFile(user, Meta);
  }

  /** What a registration writes before it is done: each file, and up to which write that needs. */
  lemma RegisteredFiles(s: Auth, user: string, password: string, env: Env)
    requires UserFile(user, Pub) !in s.files
    ensures var files, bad := RegisterStep(s, user, password, env).0.files, env.badWrites;
      var noPub := UserFile(user, Pub) in bad;
      var noKey := noPub || UserFile(user, Key) in bad;
      var noRev := noKey || UserFile(user, Rev) in bad;
      var noHash := noRev || UserFile(user, Hash) in bad;
      var noMeta := noHash || UserFile(user, Meta) in bad;
      && At(files, UserFile(user, Pub)) == (if noPub then None else Some(PublicKey(env.pair)))
      && At(files, UserFile(user, Key)) ==
         (if noKey then At(s.files, UserFile(user, Key)) else Some(PrivateKey(env.pair, password)))
      && At(files, UserFile(user, Rev)) == (if noRev then At(s.files, UserFile(user, Rev)) else Some(Placeholder))
      && At(files, UserFile(user, Hash)) ==
         (if noHash then At(s.files, UserFile(user, Hash)) else Some(PasswordHash(password)))
      && At(files, UserFile(user, Meta)) ==
         (if noMeta then At(s.files, UserFile(user, Meta)) else Some(Metadata(env.pair)))
  {
    hide WriteAll;
    var writes := RegisterWrites(user, password, env);
    WriteAllAt(s.files, writes, env, 0);
    WriteAllAt(s.files, writes, env, 1);
    WriteAllAt(s.files, writes, env, 2);
    WriteAllAt(s.files, writes, env, 3);
    WriteAllAt(s.files, writes, env, 4);
    assert writes[0].0 == UserFile(user, Pub) && writes[1].0 == UserFile(user, Key);
    assert writes[2].0 == UserFile(user, Rev) && writes[3].0 == UserFile(user, Hash);
    assert writes[4].0 == UserFile(user, Meta);
  }

  lemma WrittenSoFar(writes: seq<(UserFile, Content)>, n: nat, env: Env)
    requires n <= |writes| && Written(writes, |writes|, env)
    ensures Written(writes, n, env)
  {
  }

  /** What a rotation writes before it is done: each file, and up to which write that needs. */
  lemma RotatedFiles(s: Auth, user: string, oldPassword: string, newPassword: string, env: Env)
    requires var r := RotateKeyPairStep(s, user, oldPassword, newPassword, env).1; r.Ok? || r == Fail(WriteFailed)
    ensures var files, bad := RotateKeyPairStep(s, user, oldPassword, newPassword, env).0.files, env.badWrites;
      var pub, key, meta, hash := UserFile(user, Pub), UserFile(user, Key), UserFile(user, Meta), UserFile(user, Hash);
      && At(files, pub) == (if pub in bad then At(s.files, pub) else Some(PublicKey(env.pair)))
      && At(files, key) == (if pub in bad || key in bad then At(s.files, key)
                            else Some(PrivateKey(env.pair, newPassword)))
      && At(files, meta) == (if pub in bad || key in bad || meta in bad then At(s.files, meta)
                             else Some(Metadata(env.pair)))
      && At(files, hash) == (if pub in bad || key in bad || meta in bad || hash in bad then At(s.files, hash)
                             else Some(PasswordHash(newPassword)))
      && At(files, UserFile(user, Rev)) == At(s.files, UserFile(user, Rev))
      && At(files, UserFile(user, Lthn)) == At(s.files, UserFile(user, Lthn))
      && (RotateKeyPairStep(s, user, oldPassword, newPassword, env).1.Ok? <==>
            pub !in bad && key !in bad && meta !in bad && hash !in bad)
  {
    hide WriteAll;
    var writes := RotateWrites(user, newPassword, env);
    WriteAllAt(s.files, writes, env, 0);
    WriteAllAt(s.files, writes, env, 1);
    WriteAllAt(s.files, writes, env, 2);
    WriteAllAt(s.files, writes, env, 3);
    WriteAllTouchesOnly(s.files, writes, env, UserFile(user, Rev));
    WriteAllTouchesOnly(s.files, writes, env, UserFile(user, Lthn));
    assert writes[0].0 == UserFile(user, Pub) && writes[1].0 == UserFile(user, Key);
    assert writes[2].0 == UserFile(user, Meta) && writes[3].0 == UserFile(user, Hash);
  }

  /** What a key pair, stored with its metadata, asks of whoever rotates it: its password, or nothing
      when that is empty. */
  lemma OldPasswordAsked(s: Auth, user: string, pair: nat, password: string, given: string, next: string, env: Env)
    requires UserFile(user, Pub) in s.files && Readable(env, user)
    requires At(s.files, UserFile(user, Key)) == Some(PrivateKey(pair, password))
    requires At(s.files, UserFile(user, Meta)) == Some(Metadata(pair))
    ensures RotateKeyPairStep(s, user, given, next, env).1 == Fail(BadMetadata) <==> password != "" && given != password
    ensures RotateKeyPairStep(s, user, given, next, env).1.Ok? ==> password == "" || given == password
    ensures env.badWrites == {} && (password == "" || given == password) ==>
      RotateKeyPairStep(s, user, given, next, env).1.Ok?
  {
    assert UserFile(user, Key) !in env.badReads && UserFile(user, Meta) !in env.badReads;
    WriteAllAt(s.files, RotateWrites(user, next, env), env, 0);
    hide WriteAll;
  }

  /** So a user registered with a password rotates with it alone; and the keys of one registered without
      are rotated by whoever asks, to a password of the asker's choice, which then logs in. */
  lemma RegisteredRotates(cfg: Config, s: Auth, user: string, password: string, env: Env,
                          given: string, next: string, later: Env)
    requires RegisterStep(s, user, password, env).1.Ok? && Readable(later, user) && later.badWrites == {}
    ensures var s' := RegisterStep(s, user, password, env).0;
      var (s'', r) := RotateKeyPairStep(s', user, given, next, later);
      && (r.Ok? <==> password == "" || given == password)
      && (r.Ok? ==> LoginStep(cfg, s'', user, next, later).1.Ok?)
  {
    RegisteredAccepts(s, user, password, env);
    var s' := RegisterStep(s, user, password, env).0;
    OldPasswordAsked(s', user, env.pair, password, given, next, later);
    hide RegisterStep;
    if password == "" || given == password {
      AfterRotation(cfg, s', user, given, next, later, next, Forged, next, later);
      assert !IsRevoked(s'.files, user, later);
    }
  }

  /** After a completed rotation the user has no session, logs in with the new password only, answers
      challenges with the new key only, and rotates again with the new password only, unless that is
      empty: then with any. */
  lemma AfterRotation(cfg: Config, s: Auth, user: string, oldPassword: string, newPassword: string, env: Env,
                      given: string, signature: Signature, next: string, later: Env)
    requires RotateKeyPairStep(s, user, oldPassword, newPassword, env).1.Ok? && Readable(later, user)
    ensures var s' := RotateKeyPairStep(s, user, oldPassword, newPassword, env).0;
      && !HasSession(s', user) && Accepts(s'.files, user, newPassword)
      && (LoginStep(cfg, s', user, given, later).1.Ok? <==> given == newPassword && !IsRevoked(s.files, user, later))
      && (user in s.challenges && later.now <= s.challenges[user].expires ==>
            (ValidateResponseStep(cfg, s', user, signature, later).1.Ok? <==>
               signature == Signed(env.pair, s.challenges[user].nonce)))
      && (RotateKeyPairStep(s', user, given, next, later).1 == Fail(BadMetadata) <==>
            newPassword != "" && given != newPassword)
  {
    RotatedFiles(s, user, oldPassword, newPassword, env);
    hide WriteAll, RotateWrites;
    var s' := RotateKeyPairStep(s, user, oldPassword, newPassword, env).0;
    assert UserFile(user, Rev) !in later.badReads && UserFile(user, Hash) !in later.badReads;
    assert UserFile(user, Key) !in later.badReads && UserFile(user, Meta) !in later.badReads;
    assert UserFile(user, Pub) !in later.badReads;
    assert IsRevoked(s'.files, user, later) == IsRevoked(s.files, user, later);
  }

  /** The user is there, and no password opens the metadata with the private key. */
  predicate LockedOut(files: Medium, user: string) {
    var pub, key, meta := UserFile(user, Pub), UserFile(user, Key), UserFile(user, Meta);
    && pub in files && key in files && meta in files
    && !(files[meta].Metadata? && files[key].PrivateKey? && files[key].pair == files[meta].pair)
  }

  /** A rotation that stops at a failed write ends no session and changes no password; but it locks the
      user out of rotating exactly when the metadata is what could not be written. */
  lemma FailedRotation(s: Auth, user: string, oldPassword: string, newPassword: string, env: Env,
                       given: string, later: Env)
    requires RotateKeyPairStep(s, user, oldPassword, newPassword, env).1 == Fail(WriteFailed) && Readable(later, user)
    requires s.files[UserFile(user, Meta)] != Metadata(env.pair)
    ensures var s', bad := RotateKeyPairStep(s, user, oldPassword, newPassword, env).0, env.badWrites;
      && s'.sessions == s.sessions
      && CheckPassword(s'.files, user, given, later) == CheckPassword(s.files, user, given, later)
      && (LockedOut(s'.files, user) <==>
            UserFile(user, Pub) !in bad && UserFile(user, Key) !in bad && UserFile(user, Meta) in bad)
  {
    RotatedFiles(s, user, oldPassword, newPassword, env);
    hide WriteAll, RotateWrites;
    var s' := RotateKeyPairStep(s, user, oldPassword, newPassword, env).0;
    assert At(s'.files, UserFile(user, Hash)) == At(s.files, UserFile(user, Hash));
  }

  /** The stored private key belongs to the stored public key. */
  ghost predicate KeysMatch(files: Medium, user: string) {
    exists pair, password {:trigger PrivateKey(pair, password)} ::
      At(files, UserFile(user, Pub)) == Some(PublicKey(pair))
      && At(files, UserFile(user, Key)) == Some(PrivateKey(pair, password))
  }

  /** A failed rotation that has replaced the public key leaves pending challenges to be answered by the
      new pair alone; and the stored private key is not of that pair exactly when it could not be
      written. */
  lemma FailedRotationAnswers(cfg: Config, s: Auth, user: string, oldPassword: string, newPassword: string, env: Env,
                              signature: Signature, later: Env)
    requires RotateKeyPairStep(s, user, oldPassword, newPassword, env).1 == Fail(WriteFailed) && Readable(later, user)
    requires KeysMatch(s.files, user) && s.files[UserFile(user, Pub)] != PublicKey(env.pair)
    ensures var s', bad := RotateKeyPairStep(s, user, oldPassword, newPassword, env).0, env.badWrites;
      && (KeysMatch(s'.files, user) <==> !(UserFile(user, Pub) !in bad && UserFile(user, Key) in bad))
      && (user in s.challenges && later.now <= s.challenges[user].expires ==>
            (ValidateResponseStep(cfg, s', user, signature, later).1.Ok? <==>
               signature == Signed(if UserFile(user, Pub) in bad then s.files[UserFile(user, Pub)].pair else env.pair,
                                   s.challenges[user].nonce)))
  {
    RotatedFiles(s, user, oldPassword, newPassword, env);
    hide WriteAll, RotateWrites;
    assert UserFile(user, Pub) !in later.badReads;
    var s', key := RotateKeyPairStep(s, user, oldPassword, newPassword, env).0, s.files[UserFile(user, Key)];
    assert At(s.files, UserFile(user, Key)) == Some(PrivateKey(key.pair, key.password));
    if UserFile(user, Pub) !in env.badWrites && UserFile(user, Key) !in env.badWrites {
      assert At(s'.files, UserFile(user, Key)) == Some(PrivateKey(env.pair, newPassword));
    }
  }

  /** Locked out means that no password rotates the keys; otherwise one does, if nothing fails. */
  lemma LockedOutExactly(s: Auth, user: string, env: Env)
    requires UserFile(user, Pub) in s.files && UserFile(user, Key) in s.files && UserFile(user, Meta) in s.files
    requires Readable(env, user) && env.badWrites == {}
    ensures LockedOut(s.files, user) <==> forall p, next :: RotateKeyPairStep(s, user, p, next, env).1.Fail?
  {
    var key := s.files[UserFile(user, Key)];
    assert UserFile(user, Key) !in env.badReads && UserFile(user, Meta) !in env.badReads;
    if !LockedOut(s.files, user) {
      var writes := RotateWrites(user, "", env);
      WriteAllAt(s.files, writes, env, 0);
      hide WriteAll;
      assert RotateKeyPairStep(s, user, key.password, "", env).1.Ok?;
    } else {
      hide WriteAll;
    }
  }

  lemma LockedOutKept(cfg: Config, s: Auth, op: Op, env: Env, user: string)
    requires LockedOut(s.files, user) && op != DeleteUser(user)
    ensures LockedOut(AuthStep(cfg, s, op, env).0.files, user)
    ensures op.RotateKeyPair? && op.user == user ==> AuthStep(cfg, s, op, env).1.Fail?
  {
    var pub, key, meta := UserFile(user, Pub), UserFile(user, Key), UserFile(user, Meta);
    match op
    case Register(u, p) =>
      if u != user {
        WriteAllTouchesOnly(s.files, RegisterWrites(u, p, env), env, pub);
        WriteAllTouchesOnly(s.files, RegisterWrites(u, p, env), env, key);
        WriteAllTouchesOnly(s.files, RegisterWrites(u, p, env), env, meta);
      }
      hide WriteAll;
    case RotateKeyPair(u, _, p) =>
      if u != user {
        WriteAllTouchesOnly(s.files, RotateWrites(u, p, env), env, pub);
        WriteAllTouchesOnly(s.files, RotateWrites(u, p, env), env, key);
        WriteAllTouchesOnly(s.files, RotateWrites(u, p, env), env, meta);
      }
      hide WriteAll;
    case DeleteUser(u) =>
      DeleteTouchesOwn(s.files, u, |ARTIFACTS|, env, pub);
      DeleteTouchesOwn(s.files, u, |ARTIFACTS|, env, key);
      DeleteTouchesOwn(s.files, u, |ARTIFACTS|, env, meta);
      hide DeleteArtifacts;
    case _ =>
      hide CheckPassword, IsRevoked, WithoutUser, WithoutExpired;
  }

  /** And it is for good: in every continuation that does not delete the user, every rotation fails,
      whatever the password. */
  lemma {:induction false} LockedOutForGood(cfg: Config, s: Auth, calls: seq<Call>, user: string, i: nat)
    requires LockedOut(s.files, user) && i <= |calls|
    requires forall j :: 0 <= j < |calls| ==> calls[j].op != DeleteUser(user)
    ensures LockedOut(After(cfg, s, calls[..i]).files, user)
    ensures i < |calls| && calls[i].op.RotateKeyPair? && calls[i].op.user == user ==> AnswerOf(cfg, s, calls, i).Fail?
  {
    hide AuthStep, LockedOut;
    if i > 0 {
      LockedOutForGood(cfg, s, calls, user, i - 1);
      AfterNext(cfg, s, calls, i - 1);
      LockedOutKept(cfg, After(cfg, s, calls[..i - 1]), calls[i - 1].op, calls[i - 1].env, user);
    }
    if i < |calls| {
      LockedOutKept(cfg, After(cfg, s, calls[..i]), calls[i].op, calls[i].env, user);
    }
  }

  /** A login against a legacy hash, whether or not it can write the new one, changes neither this
      user's password nor anyone else's. */
  lemma LegacyLoginKeepsPasswords(cfg: Config, s: Auth, user: string, password: string, env: Env,
                                  someone: string, given: string, later: Env)
    requires LoginStep(cfg, s, user, password, env).1.Ok? && Readable(later, someone)
    ensures CheckPassword(LoginStep(cfg, s, user, password, env).0.files, someone, given, later).Ok? <==>
      CheckPassword(s.files, someone, given, later).Ok?
  {
    assert UserFile(someone, Hash) !in later.badReads && UserFile(someone, Lthn) !in later.badReads;
  }

  /** Nothing changes an accepted password but deleting the user and a rotation that completes. */
  lemma AcceptsKept(cfg: Config, s: Auth, op: Op, env: Env, user: string, password: string)
    requires Accepts(s.files, user, password) && op != DeleteUser(user)
    requires op.RotateKeyPair? && op.user == user ==> AuthStep(cfg, s, op, env).1.Fail?
    ensures Accepts(AuthStep(cfg, s, op, env).0.files, user, password)
  {
    var pub, hash := UserFile(user, Pub), UserFile(user, Hash);
    match op
    case Register(u, p) =>
      if u != user {
        WriteAllTouchesOnly(s.files, RegisterWrites(u, p, env), env, pub);
        WriteAllTouchesOnly(s.files, RegisterWrites(u, p, env), env, hash);
      }
      hide WriteAll;
    case RotateKeyPair(u, oldPassword, newPassword) =>
      if u == user {
        if RotateKeyPairStep(s, u, oldPassword, newPassword, env).1 == Fail(WriteFailed) {
          RotatedFiles(s, u, oldPassword, newPassword, env);
        }
      } else {
        WriteAllTouchesOnly(s.files, RotateWrites(u, newPassword, env), env, pub);
        WriteAllTouchesOnly(s.files, RotateWrites(u, newPassword, env), env, hash);
      }
      hide WriteAll;
    case DeleteUser(u) =>
      DeleteTouchesOwn(s.files, u, |ARTIFACTS|, env, pub);
      DeleteTouchesOwn(s.files, u, |ARTIFACTS|, env, hash);
      hide DeleteArtifacts;
    case _ =>
      hide IsRevoked, WithoutUser, WithoutExpired;
  }

  predicate KeepsPassword(cfg: Config, s: Auth, calls: seq<Call>, user: string) {
    forall i :: 0 <= i < |calls| ==>
      && calls[i].op != DeleteUser(user)
      && (calls[i].op.RotateKeyPair? && calls[i].op.user == user ==> AnswerOf(cfg, s, calls, i).Fail?)
  }

  lemma {:induction false} AcceptsThroughout(cfg: Config, s: Auth, calls: seq<Call>, user: string,
                                             password: string, i: nat)
    requires Accepts(s.files, user, password) && KeepsPassword(cfg, s, calls, user) && i <= |calls|
    ensures Accepts(After(cfg, s, calls[..i]).files, user, password)
  {
    hide AuthStep, Accepts;
    if i > 0 {
      AcceptsThroughout(cfg, s, calls, user, password, i - 1);
      AfterNext(cfg, s, calls, i - 1);
      assert AnswerOf(cfg, s, calls, i - 1) ==
        AuthStep(cfg, After(cfg, s, calls[..i - 1]), calls[i - 1].op, calls[i - 1].env).1;
      AcceptsKept(cfg, After(cfg, s, calls[..i - 1]), calls[i - 1].op, calls[i - 1].env, user, password);
    }
  }

  /** From a registration or a completed rotation on, in every run that neither deletes the user nor
      completes a rotation, a login succeeds exactly with that password and while not revoked. */
  lemma LoginExactly(cfg: Config, s: Auth, calls: seq<Call>, user: string, password: string, i: nat)
    requires Accepts(s.files, user, password) && KeepsPassword(cfg, s, calls, user) && i < |calls|
    requires calls[i].op.Login? && calls[i].op.user == user && Readable(calls[i].env, user)
    ensures AnswerOf(cfg, s, calls, i).Ok? <==>
      calls[i].op.password == password && !IsRevoked(After(cfg, s, calls[..i]).files, user, calls[i].env)
  {
    hide IsRevoked, After;
    AcceptsThroughout(cfg, s, calls, user, password, i);
    assert UserFile(user, Hash) !in calls[i].env.badReads;
  }

  /** A registered user's challenge is answered exactly by a signature with the registered key. */
  lemma RegisteredAnswers(cfg: Config, s: Auth, user: string, password: string, env: Env,
                          asked: Env, answered: Env, signature: Signature)
    requires RegisterStep(s, user, password, env).1.Ok?
    requires Readable(asked, user) && Readable(answered, user)
    ensures var s' := RegisterStep(s, user, password, env).0;
      var (s'', r) := CreateChallengeStep(cfg, s', user, asked);
      && r == Ok(Challenged(Challenge(asked.nonce, asked.now + cfg.challengeTTL)))
      && (ValidateResponseStep(cfg, s'', user, signature, answered).1.Ok? <==>
            signature == Signed(env.pair, asked.nonce) && answered.now <= asked.now + cfg.challengeTTL)
  {
    RegisteredAccepts(s, user, password, env);
    hide RegisterStep;
    assert UserFile(user, Rev) !in asked.badReads && UserFile(user, Pub) !in asked.badReads;
    assert UserFile(user, Pub) !in answered.badReads;
  }

  // ---------------------------------------------------------------- deleting a user

  /** An artifact that is there and cannot be deleted. */
  predicate Stuck(files: Medium, user: string, e: Ext, env: Env) {
    UserFile(user, e) in files && UserFile(user, e) in env.badDeletes
  }

  /** Deleting in order: an artifact goes exactly when none up to it is stuck. */
  lemma {:induction false} DeletedAt(files: Medium, user: string, n: nat, env: Env, i: nat)
    requires n <= |ARTIFACTS| && i < |ARTIFACTS|
    ensures DeleteArtifacts(files, user, n, env).1 <==>
      forall j :: 0 <= j < n ==> !Stuck(files, user, ARTIFACTS[j], env)
    ensures At(DeleteArtifacts(files, user, n, env).0, UserFile(user, ARTIFACTS[i])) ==
      if i < n && (forall j :: 0 <= j <= i ==> !Stuck(files, user, ARTIFACTS[j], env)) then None
      else At(files, UserFile(user, ARTIFACTS[i]))
  {
    if n > 0 {
      DeletedAt(files, user, n - 1, env, i);
      assert forall j, k :: 0 <= j < k < |ARTIFACTS| ==> ARTIFACTS[j] != ARTIFACTS[k];
    }
  }

  /** What a deletion leaves of the user, for every combination of stuck artifacts. */
  lemma ArtifactsLeft(s: Auth, user: string, env: Env)
    requires var r := DeleteUserStep(s, user, env).1; r.Ok? || r == Fail(DeleteFailed)
    ensures var files := DeleteUserStep(s, user, env).0.files;
      var pub := Stuck(s.files, user, Pub, env);
      var key := pub || Stuck(s.files, user, Key, env);
      var rev := key || Stuck(s.files, user, Rev, env);
      var meta := rev || Stuck(s.files, user, Meta, env);
      var hash := meta || Stuck(s.files, user, Hash, env);
      var lthn := hash || Stuck(s.files, user, Lthn, env);
      && At(files, UserFile(user, Pub)) == (if pub then At(s.files, UserFile(user, Pub)) else None)
      && At(files, UserFile(user, Key)) == (if key then At(s.files, UserFile(user, Key)) else None)
      && At(files, UserFile(user, Rev)) == (if rev then At(s.files, UserFile(user, Rev)) else None)
      && At(files, UserFile(user, Meta)) == (if meta then At(s.files, UserFile(user, Meta)) else None)
      && At(files, UserFile(user, Hash)) == (if hash then At(s.files, UserFile(user, Hash)) else None)
      && At(files, UserFile(user, Lthn)) == (if lthn then At(s.files, UserFile(user, Lthn)) else None)
      && (DeleteUserStep(s, user, env).1.Ok? <==> !lthn)
  {
    hide DeleteArtifacts, WithoutUser, Stuck;
    var a := ARTIFACTS;
    assert a[0] == Pub && a[1] == Key && a[2] == Rev && a[3] == Meta && a[4] == Hash && a[5] == Lthn && |a| == 6;
    DeletedAt(s.files, user, 6, env, 0);
    DeletedAt(s.files, user, 6, env, 1);
    DeletedAt(s.files, user, 6, env, 2);
    DeletedAt(s.files, user, 6, env, 3);
    DeletedAt(s.files, user, 6, env, 4);
    DeletedAt(s.files, user, 6, env, 5);
  }

  /** A deletion that succeeds leaves nothing of the user; its password is unknown afterwards. */
  lemma AfterDeletion(cfg: Config, s: Auth, user: string, env: Env, e: Ext, given: string, later: Env)
    requires DeleteUserStep(s, user, env).1.Ok?
    ensures var s' := DeleteUserStep(s, user, env).0;
      && UserFile(user, e) !in s'.files && !HasSession(s', user)
      && LoginStep(cfg, s', user, given, later).1 == Fail(UserNotFound)
  {
    ArtifactsLeft(s, user, env);
    hide DeleteArtifacts;
    var files := DeleteUserStep(s, user, env).0.files;
    assert At(files, UserFile(user, e)) == None;
    assert At(files, UserFile(user, Rev)) == None && At(files, UserFile(user, Hash)) == None;
    assert At(files, UserFile(user, Lthn)) == None;
  }

  /** A deletion that fails ends no session. Unless the public key itself is stuck the user can not be
      deleted again; yet the old password still logs in while a hash is left, and a revocation
      counts no more once its record has gone. */
  lemma FailedDeletion(cfg: Config, s: Auth, user: string, env: Env, given: string, later: Env)
    requires DeleteUserStep(s, user, env).1 == Fail(DeleteFailed) && Readable(later, user)
    ensures var s' := DeleteUserStep(s, user, env).0;
      var rev := Stuck(s.files, user, Pub, env) || Stuck(s.files, user, Key, env) || Stuck(s.files, user, Rev, env);
      var hash := rev || Stuck(s.files, user, Meta, env) || Stuck(s.files, user, Hash, env);
      && s'.sessions == s.sessions
      && (DeleteUserStep(s', user, later).1 == Fail(UserNotFound) <==> !Stuck(s.files, user, Pub, env))
      && (LoginStep(cfg, s', user, given, later).1.Ok? <==>
            && !(rev && IsRevoked(s.files, user, later))
            && if hash then CheckPassword(s.files, user, given, later).Ok?
               else At(s.files, UserFile(user, Lthn)) == Some(LegacyHash(given)))
  {
    ArtifactsLeft(s, user, env);
    hide DeleteArtifacts, Stuck;
    var s' := DeleteUserStep(s, user, env).0;
    assert UserFile(user, Rev) !in later.badReads && UserFile(user, Hash) !in later.badReads;
    assert UserFile(user, Lthn) !in later.badReads;
    hide DeleteUserStep;
  }
}
