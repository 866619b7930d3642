/** What each operation of the authenticator (go/auth/auth.go) does to the user files, the pending
    challenges and the sessions. Signatures, encryption and password hashes are ideal; the clock,
    fresh random values and the failures of the storage medium are inputs of every operation. */
module AuthSpec {
  import opened Wrappers
  import opened SessionStores

  // ---------------------------------------------------------------- the medium

  datatype Ext = Pub | Key | Rev | Meta | Hash | Lthn

  function ExtName(e: Ext): string {
    match e
    case Pub => ".pub"
    case Key => ".key"
    case Rev => ".rev"
    case Meta => ".json"
    case Hash => ".hash"
    case Lthn => ".lthn"
  }

  function UserPath(user: string, e: Ext): string {
    "users/" + user + ExtName(e)
  }

  /** No two artifacts of any users share a path, so a path may be named by user and extension. */
  lemma UserPathInjective(u: string, e: Ext, u': string, e': Ext)
    requires UserPath(u, e) == UserPath(u', e')
    ensures u == u' && e == e'
  {
    var p, q := UserPath(u, e), UserPath(u', e');
    var x, y := ExtName(e), ExtName(e');
    assert p[|p| - 1] == x[|x| - 1] && p[|p| - 2] == x[|x| - 2] && p[|p| - 3] == x[|x| - 3];
    assert q[|q| - 1] == y[|y| - 1] && q[|q| - 2] == y[|y| - 2] && q[|q| - 3] == y[|y| - 3];
    assert e == e';
    assert p[6..|p| - |x|] == u && q[6..|q| - |y|] == u';
  }

  datatype UserFile = UserFile(user: string, ext: Ext)

  /** What a user file holds; key pairs are numbered as they are made. */
  datatype Content =
    | PublicKey(pair: nat)
    | PrivateKey(pair: nat, password: string)
    | Placeholder
    | Revocation(at: int)
    | PasswordHash(password: string)
    | LegacyHash(password: string)
    | Metadata(pair: nat)
    | Junk(text: string)

  type Medium = map<UserFile, Content>

  /** A response is a signature of a nonce with a private key, or something else. */
  datatype Signature = Signed(pair: nat, nonce: nat) | Forged

  datatype Challenge = Challenge(nonce: nat, expires: int)

  datatype Auth = Auth(files: Medium, challenges: map<string, Challenge>, sessions: Sessions)

  datatype Config = Config(challengeTTL: int, sessionTTL: int)

  /** A clock reading; the zero time is no reading. */
  type Time = t: int | t > 0 witness 1

  /** What the world supplies to one operation: the time, random values, and the files whose
      reading, writing or deleting fails. */
  datatype Env = Env(now: Time, token: string, nonce: nat, pair: nat,
                     badReads: set<UserFile>, badWrites: set<UserFile>, badDeletes: set<UserFile>)

  datatype AuthError =
    | KeyRevoked | UserNotFound | UserExists | ProtectedUser | NoChallenge | ChallengeExpired
    | BadSignature | BadKey | SessionNotFound | SessionExpired | BadPassword | CorruptedHash
    | ReadFailed | WriteFailed | DeleteFailed | BadMetadata

  datatype Reply = Challenged(challenge: Challenge) | Granted(session: Session) | Acknowledged | CleanedUp(count: nat)

  type Answer = Result<Reply, AuthError>

  datatype Op =
    | Register(user: string, password: string)
    | CreateChallenge(user: string)
    | ValidateResponse(user: string, signature: Signature)
    | ValidateSession(token: string)
    | RefreshSession(token: string)
    | RevokeSession(token: string)
    | DeleteUser(user: string)
    | Login(user: string, password: string)
    | RotateKeyPair(user: string, oldPassword: string, newPassword: string)
    | RevokeKey(user: string, password: string)
    | CleanUp

  function Read(files: Medium, f: UserFile, env: Env): Option<Content> {
    if f in files && f !in env.badReads then Some(files[f]) else None
  }

  // ---------------------------------------------------------------- what the files say

  /** The user's revocation record is there, can be read, and carries a time. */
  ghost predicate RevokedOnFile(files: Medium, user: string, env: Env) {
    var rev := UserFile(user, Rev);
    rev in files && rev !in env.badReads && exists at :: at != 0 && files[rev] == Revocation(at)
  }

  /** The stored hash, the legacy one if there is no other, can be read and is this password's. */
  predicate PasswordFits(files: Medium, user: string, password: string, env: Env) {
    var hash, lthn := UserFile(user, Hash), UserFile(user, Lthn);
    if hash in files then hash !in env.badReads && files[hash] == PasswordHash(password)
    else lthn in files && lthn !in env.badReads && files[lthn] == LegacyHash(password)
  }

  /** The user's public key can be read and is one. */
  predicate KeyOnFile(files: Medium, user: string, env: Env) {
    var pub := UserFile(user, Pub);
    pub in files && pub !in env.badReads && files[pub].PublicKey?
  }

  // ---------------------------------------------------------------- the operations

  function IsRevoked(files: Medium, user: string, env: Env): bool {
    match Read(files, UserFile(user, Rev), env)
    case Some(Revocation(at)) => at != 0
    case _ => false
  }

  function CreateSession(cfg: Config, s: Auth, user: string, env: Env): (Auth, Answer) {
    var session := Session(env.token, user, env.now + cfg.sessionTTL);
    (s.(sessions := s.sessions[env.token := session]), Ok(Granted(session)))
  }

  function CreateChallengeStep(cfg: Config, s: Auth, user: string, env: Env): (Auth, Answer) {
    if IsRevoked(s.files, user, env) then (s, Fail(KeyRevoked))
    else
      match Read(s.files, UserFile(user, Pub), env)
      case None => (s, Fail(UserNotFound))
      case Some(PublicKey(_)) =>
        var c := Challenge(env.nonce, env.now + cfg.challengeTTL);
        (s.(challenges := s.challenges[user := c]), Ok(Challenged(c)))
      case Some(_) => (s, Fail(BadKey))
  }

  function ValidateResponseStep(cfg: Config, s: Auth, user: string, signature: Signature, env: Env): (Auth, Answer) {
    if user !in s.challenges then (s, Fail(NoChallenge))
    else
      var c, taken := s.challenges[user], s.(challenges := s.challenges - {user});
      if env.now > c.expires then (taken, Fail(ChallengeExpired))
      else
        match Read(s.files, UserFile(user, Pub), env)
        case None => (taken, Fail(UserNotFound))
        case Some(key) =>
          if key.PublicKey? && signature == Signed(key.pair, c.nonce) then CreateSession(cfg, taken, user, env)
          else (taken, Fail(BadSignature))
  }

  function ValidateSessionStep(s: Auth, token: string, env: Env): (Auth, Answer) {
    if token !in s.sessions then (s, Fail(SessionNotFound))
    else if Expired(s.sessions[token], env.now) then (s.(sessions := s.sessions - {token}), Fail(SessionExpired))
    else (s, Ok(Granted(s.sessions[token])))
  }

  function RefreshSessionStep(cfg: Config, s: Auth, token: string, env: Env): (Auth, Answer) {
    if token !in s.sessions then (s, Fail(SessionNotFound))
    else if Expired(s.sessions[token], env.now) then (s.(sessions := s.sessions - {token}), Fail(SessionExpired))
    else
      var session := s.sessions[token].(expires := env.now + cfg.sessionTTL);
      (s.(sessions := s.sessions[session.token := session]), Ok(Granted(session)))
  }

  function RevokeSessionStep(s: Auth, token: string): (Auth, Answer) {
    if token !in s.sessions then (s, Fail(SessionNotFound))
    else (s.(sessions := s.sessions - {token}), Ok(Acknowledged))
  }

  const ARTIFACTS: seq<Ext> := [Pub, Key, Rev, Meta, Hash, Lthn]
  const PROTECTED: string := "server"

  /** Deleting the first n artifacts in order, up to the first that cannot be deleted. */
  function DeleteArtifacts(files: Medium, user: string, n: nat, env: Env): (Medium, bool)
    requires n <= |ARTIFACTS|
  {
    if n == 0 then (files, true)
    else
      var (rest, ok) := DeleteArtifacts(files, user, n - 1, env);
      var f := UserFile(user, ARTIFACTS[n - 1]);
      if !ok || f !in files then (rest, ok)
      else if f in env.badDeletes then (rest, false)
      else (rest - {f}, true)
  }

  function DeleteUserStep(s: Auth, user: string, env: Env): (Auth, Answer) {
    if user == PROTECTED then (s, Fail(ProtectedUser))
    else if UserFile(user, Pub) !in s.files then (s, Fail(UserNotFound))
    else
      var (files, ok) := DeleteArtifacts(s.files, user, |ARTIFACTS|, env);
      if !ok then (s.(files := files), Fail(DeleteFailed))
      else (s.(files := files, sessions := WithoutUser(s.sessions, user)), Ok(Acknowledged))
  }

  /** The stored hash that a password is checked against, `.hash` before `.lthn`. */
  function CheckPassword(files: Medium, user: string, password: string, env: Env): Result<(), AuthError> {
    if UserFile(user, Hash) in files then
      match Read(files, UserFile(user, Hash), env)
      case None => Fail(ReadFailed)
      case Some(PasswordHash(p)) => if p == password then Ok(()) else Fail(BadPassword)
      case Some(_) => Fail(CorruptedHash)
    else
      match Read(files, UserFile(user, Lthn), env)
      case None => Fail(UserNotFound)
      case Some(c) => if c == LegacyHash(password) then Ok(()) else Fail(BadPassword)
  }

  /** A write that fails leaves the file as it was. */
  function Write(files: Medium, f: UserFile, c: Content, env: Env): Medium {
    if f in env.badWrites then files else files[f := c]
  }

  function LoginStep(cfg: Config, s: Auth, user: string, password: string, env: Env): (Auth, Answer) {
    if IsRevoked(s.files, user, env) then (s, Fail(KeyRevoked))
    else
      match CheckPassword(s.files, user, password, env)
      case Fail(e) => (s, Fail(e))
      case Ok(_) =>
        if UserFile(user, Hash) in s.files then CreateSession(cfg, s, user, env)
        else CreateSession(cfg, s.(files := Write(s.files, UserFile(user, Hash), PasswordHash(password), env)),
                           user, env)
  }

  /** Writing a list of files in order, up to the first that cannot be written. */
  function WriteAll(files: Medium, writes: seq<(UserFile, Content)>, env: Env): (Medium, bool) {
    if writes == [] then (files, true)
    else
      var n := |writes| - 1;
      var (rest, ok) := WriteAll(files, writes[..n], env);
      var (f, c) := writes[n];
      if !ok || f in env.badWrites then (rest, false) else (rest[f := c], true)
  }

  function RegisterWrites(user: string, password: string, env: Env): seq<(UserFile, Content)> {
    [(UserFile(user, Pub), PublicKey(env.pair)),
     (UserFile(user, Key), PrivateKey(env.pair, password)),
     (UserFile(user, Rev), Placeholder),
     (UserFile(user, Hash), PasswordHash(password)),
     (UserFile(user, Meta), Metadata(env.pair))]
  }

  function RegisterStep(s: Auth, user: string, password: string, env: Env): (Auth, Answer) {
    if UserFile(user, Pub) in s.files then (s, Fail(UserExists))
    else
      var (files, ok) := WriteAll(s.files, RegisterWrites(user, password, env), env);
      (s.(files := files), if ok then Ok(Acknowledged) else Fail(WriteFailed))
  }

  function RotateWrites(user: string, password: string, env: Env): seq<(UserFile, Content)> {
    [(UserFile(user, Pub), PublicKey(env.pair)),
     (UserFile(user, Key), PrivateKey(env.pair, password)),
     (UserFile(user, Meta), Metadata(env.pair)),
     (UserFile(user, Hash), PasswordHash(password))]
  }

  /** Whether a password opens what was encrypted to a key pair, given its private key. A key made with
      an empty password is stored unencrypted, and then the password is not looked at. */
  predicate OpensKey(key: Content, pair: nat, given: string) {
    key.PrivateKey? && key.pair == pair && (key.password == "" || key.password == given)
  }

  function RotateKeyPairStep(s: Auth, user: string, oldPassword: string, newPassword: string, env: Env)
    : (Auth, Answer)
  {
    if UserFile(user, Pub) !in s.files then (s, Fail(UserNotFound))
    else
      var key, meta := Read(s.files, UserFile(user, Key), env), Read(s.files, UserFile(user, Meta), env);
      if key.None? || meta.None? then (s, Fail(ReadFailed))
      else if !meta.value.Metadata? || !OpensKey(key.value, meta.value.pair, oldPassword) then (s, Fail(BadMetadata))
      else
        var (files, ok) := WriteAll(s.files, RotateWrites(user, newPassword, env), env);
        if !ok then (s.(files := files), Fail(WriteFailed))
        else (s.(files := files, sessions := WithoutUser(s.sessions, user)), Ok(Acknowledged))
  }

  function RevokeKeyStep(s: Auth, user: string, password: string, env: Env): (Auth, Answer) {
    var rev := UserFile(user, Rev);
    if UserFile(user, Pub) !in s.files then (s, Fail(UserNotFound))
    else
      match CheckPassword(s.files, user, password, env)
      case Fail(e) => (s, Fail(e))
      case Ok(_) =>
        if rev in env.badWrites then (s, Fail(WriteFailed))
        else (s.(files := s.files[rev := Revocation(env.now)], sessions := WithoutUser(s.sessions, user)),
              Ok(Acknowledged))
  }

  function CleanUpStep(s: Auth, env: Env): (Auth, Answer) {
    WithoutExpiredIsSmaller(s.sessions, env.now);
    (s.(sessions := WithoutExpired(s.sessions, env.now)),
     Ok(CleanedUp(|s.sessions| - |WithoutExpired(s.sessions, env.now)|)))
  }

  function AuthStep(cfg: Config, s: Auth, op: Op, env: Env): (Auth, Answer) {
    match op
    case Register(user, password) => RegisterStep(s, user, password, env)
    case CreateChallenge(user) => CreateChallengeStep(cfg, s, user, env)
    case ValidateResponse(user, signature) => ValidateResponseStep(cfg, s, user, signature, env)
    case ValidateSession(token) => ValidateSessionStep(s, token, env)
    case RefreshSession(token) => RefreshSessionStep(cfg, s, token, env)
    case RevokeSession(token) => RevokeSessionStep(s, token)
    case DeleteUser(user) => DeleteUserStep(s, user, env)
    case Login(user, password) => LoginStep(cfg, s, user, password, env)
    case RotateKeyPair(user, oldPassword, newPassword) => RotateKeyPairStep(s, user, oldPassword, newPassword, env)
    case RevokeKey(user, password) => RevokeKeyStep(s, user, password, env)
    case CleanUp => CleanUpStep(s, env)
  }
}
