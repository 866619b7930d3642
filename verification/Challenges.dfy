/** Challenges under concurrency (go/auth/auth.go): the map of pending challenges is locked, the rest
    of `ValidateResponse` is not, so any number of responses may be checked at the same time, while
    keys are registered, rotated and deleted. */
module Challenges {
  import opened Wrappers
  import opened AuthSpec

  /** A challenge, with the user it was made for. */
  datatype Made = Made(user: string, challenge: Challenge)

  /** A `ValidateResponse` that succeeded: for whom, when, on what challenge, and the key pair of the
      user's public key that verified the signature. */
  datatype Acceptance = Acceptance(user: string, at: int, challenge: Challenge, pair: nat, signature: Signature)

  /** The pending challenges, those that some thread has taken to check, the public-key files, and
      what has happened. */
  datatype World = World(
    pending: map<string, Challenge>,
    taken: map<nat, Made>,
    keys: map<string, Content>,
    published: set<(string, nat)>,
    made: set<Made>,
    superseded: set<Made>,
    accepted: seq<Acceptance>)

  /** Publish: the `.pub` file of a user is written, or goes. Store: the locked last step of
      CreateChallenge. Take: the locked first step of ValidateResponse. Check: the rest of it, at a
      clock reading, and whether the key can be read then. */
  datatype Move =
    | Publish(user: string, content: Option<Content>)
    | Store(user: string, challenge: Challenge)
    | Take(thread: nat, user: string)
    | Check(thread: nat, now: int, readable: bool, signature: Signature)

  function Checked(w: World, m: Made, now: int, readable: bool, signature: Signature): Option<Acceptance> {
    if now > m.challenge.expires || !readable || m.user !in w.keys then None
    else
      var key := w.keys[m.user];
      if !key.PublicKey? || signature != Signed(key.pair, m.challenge.nonce) then None
      else Some(Acceptance(m.user, now, m.challenge, key.pair, signature))
  }

  function After(w: World, move: Move): World {
    match move
    case Publish(user, content) =>
      w.(keys := if content.Some? then w.keys[user := content.value] else w.keys - {user},
         published := if content.Some? && content.value.PublicKey? then w.published + {(user, content.value.pair)}
                      else w.published)
    case Store(user, c) =>
      w.(pending := w.pending[user := c], made := w.made + {Made(user, c)},
         superseded := if user in w.pending then w.superseded + {Made(user, w.pending[user])} else w.superseded)
    case Take(thread, user) =>
      if thread in w.taken || user !in w.pending then w
      else w.(pending := w.pending - {user}, taken := w.taken[thread := Made(user, w.pending[user])])
    case Check(thread, now, readable, signature) =>
      if thread !in w.taken then w
      else
        var done, checked := w.(taken := w.taken - {thread}), Checked(w, w.taken[thread], now, readable, signature);
        if checked.None? then done else done.(accepted := w.accepted + [checked.value])
  }

  function AfterAll(moves: seq<Move>): World {
    if moves == [] then World(map[], map[], map[], {}, {}, {}, [])
    else After(AfterAll(moves[..|moves| - 1]), moves[|moves| - 1])
  }

  /** Every challenge draws a new nonce. */
  predicate FreshNonces(moves: seq<Move>) {
    forall i, j :: 0 <= i < j < |moves| && moves[i].Store? && moves[j].Store? ==>
      moves[i].challenge.nonce != moves[j].challenge.nonce
  }

  /** Only published keys are on file. */
  ghost predicate KeysPublished(w: World) {
    forall u :: u in w.keys && w.keys[u].PublicKey? ==> (u, w.keys[u].pair) in w.published
  }

  /** A challenge is pending, or taken by one thread, or superseded: never two of these. */
  ghost predicate Placed(w: World) {
    && (forall m, m' :: m in w.made && m' in w.made && m.challenge.nonce == m'.challenge.nonce ==> m == m')
    && (forall u :: u in w.pending ==> Made(u, w.pending[u]) in w.made && Made(u, w.pending[u]) !in w.superseded)
    && (forall t :: t in w.taken ==> w.taken[t] in w.made && w.taken[t] !in w.superseded)
    && (forall t, u :: t in w.taken && u in w.pending ==> w.taken[t] != Made(u, w.pending[u]))
    && (forall t, t' :: t in w.taken && t' in w.taken && t != t' ==> w.taken[t] != w.taken[t'])
    && w.superseded <= w.made
  }

  /** What was accepted is used up: it is neither pending nor taken, and was accepted once. */
  ghost predicate UsedUp(w: World) {
    && (forall i :: 0 <= i < |w.accepted| ==> Proper(w, w.accepted[i]))
    && (forall i, t :: 0 <= i < |w.accepted| && t in w.taken ==> MadeFor(w.accepted[i]) != w.taken[t])
    && (forall i, u :: 0 <= i < |w.accepted| && u in w.pending ==> MadeFor(w.accepted[i]) != Made(u, w.pending[u]))
    && (forall i, j :: 0 <= i < j < |w.accepted| ==> MadeFor(w.accepted[i]) != MadeFor(w.accepted[j]))
  }

  ghost predicate InOnePlace(w: World) {
    KeysPublished(w) && Placed(w) && UsedUp(w)
  }

  function MadeFor(a: Acceptance): Made {
    Made(a.user, a.challenge)
  }

  /** It answers a challenge made for that user and never superseded, in time, by signing its nonce with
      a key that was published for that user. */
  predicate Proper(w: World, a: Acceptance) {
    && MadeFor(a) in w.made && MadeFor(a) !in w.superseded
    && a.at <= a.challenge.expires
    && a.signature == Signed(a.pair, a.challenge.nonce) && (a.user, a.pair) in w.published
  }

  lemma MoveKeepsPlaces(w: World, move: Move)
    requires InOnePlace(w)
    requires move.Store? ==> forall m :: m in w.made ==> m.challenge.nonce != move.challenge.nonce
    ensures InOnePlace(After(w, move))
  {
    match move
    case Publish(user, content) => PublishKeepsPlaces(w, user, content);
    case Store(user, c) => StoreKeepsPlaces(w, user, c);
    case Take(thread, user) => TakeKeepsPlaces(w, thread, user);
    case Check(_, _, _, _) => CheckKeepsPlaces(w, move);
  }

  lemma PublishKeepsPlaces(w: World, user: string, content: Option<Content>)
    requires InOnePlace(w)
    ensures InOnePlace(After(w, Publish(user, content)))
  {
    var w' := After(w, Publish(user, content));
    forall i | 0 <= i < |w.accepted|
      ensures Proper(w', w'.accepted[i])
    {
      assert Proper(w, w.accepted[i]);
    }
  }

  lemma StoreKeepsPlaces(w: World, user: string, c: Challenge)
    requires InOnePlace(w) && forall m :: m in w.made ==> m.challenge.nonce != c.nonce
    ensures InOnePlace(After(w, Store(user, c)))
  {
    var w' := After(w, Store(user, c));
    assert Made(user, c) !in w.made;
    forall i | 0 <= i < |w.accepted|
      ensures Proper(w', w'.accepted[i]) && MadeFor(w.accepted[i]) != Made(user, c)
    {
      assert Proper(w, w.accepted[i]);
      assert user in w.pending ==> MadeFor(w.accepted[i]) != Made(user, w.pending[user]);
    }
  }

  lemma TakeKeepsPlaces(w: World, thread: nat, user: string)
    requires InOnePlace(w)
    ensures InOnePlace(After(w, Take(thread, user)))
  {
    var w' := After(w, Take(thread, user));
    forall i | 0 <= i < |w.accepted|
      ensures Proper(w', w'.accepted[i])
    {
      assert Proper(w, w.accepted[i]);
    }
  }

  lemma CheckKeepsPlaces(w: World, move: Move)
    requires InOnePlace(w) && move.Check?
    ensures InOnePlace(After(w, move))
  {
    var t := move.thread;
    if t in w.taken {
      var done := w.(taken := w.taken - {t});
      DroppedStaysPlaced(w, t);
      var checked := Checked(w, w.taken[t], move.now, move.readable, move.signature);
      if checked.Some? {
        AcceptedIsUsedUp(w, t, checked.value);
      } else {
        DroppedStaysUsedUp(w, t);
      }
    }
  }

  lemma DroppedStaysPlaced(w: World, t: nat)
    requires Placed(w)
    ensures Placed(w.(taken := w.taken - {t}))
  {
  }

  lemma DroppedStaysUsedUp(w: World, t: nat)
    requires UsedUp(w)
    ensures UsedUp(w.(taken := w.taken - {t}))
  {
    forall i | 0 <= i < |w.accepted|
      ensures Proper(w.(taken := w.taken - {t}), w.accepted[i])
    {
      assert Proper(w, w.accepted[i]);
    }
  }

  lemma AcceptedIsUsedUp(w: World, t: nat, a: Acceptance)
    requires Placed(w) && UsedUp(w) && t in w.taken && MadeFor(a) == w.taken[t] && Proper(w, a)
    ensures UsedUp(w.(taken := w.taken - {t}, accepted := w.accepted + [a]))
  {
    var w' := w.(taken := w.taken - {t}, accepted := w.accepted + [a]);
    forall i | 0 <= i < |w'.accepted|
      ensures Proper(w', w'.accepted[i])
      ensures i < |w.accepted| ==> MadeFor(w.accepted[i]) != MadeFor(a)
    {
      if i < |w.accepted| {
        assert Proper(w, w.accepted[i]);
      }
    }
    hide Proper;
  }

  lemma {:induction false} MadeByStores(moves: seq<Move>, m: Made)
    requires m in AfterAll(moves).made
    ensures exists i :: 0 <= i < |moves| && moves[i] == Store(m.user, m.challenge)
  {
    var n := |moves| - 1;
    if moves[n] == Store(m.user, m.challenge) {
    } else {
      MadeByStores(moves[..n], m);
      var i :| 0 <= i < n && moves[..n][i] == Store(m.user, m.challenge);
      assert moves[i] == Store(m.user, m.challenge);
    }
  }

  /** Over any interleaving, the successful responses answer distinct challenges, each created earlier
      for the same user, not expired, whose nonce was signed with a key that was that user's; none was
      superseded. */
  lemma {:induction false} ChallengesAreSingleUse(moves: seq<Move>)
    requires FreshNonces(moves)
    ensures InOnePlace(AfterAll(moves))
    ensures var w := AfterAll(moves);
      && (forall i :: 0 <= i < |w.accepted| ==> Proper(w, w.accepted[i]))
      && (forall i, j :: 0 <= i < j < |w.accepted| ==>
            w.accepted[i].challenge.nonce != w.accepted[j].challenge.nonce)
  {
    hide After;
    if moves != [] {
      var n := |moves| - 1;
      var w := AfterAll(moves[..n]);
      ChallengesAreSingleUse(moves[..n]);
      if moves[n].Store? {
        forall m | m in w.made
          ensures m.challenge.nonce != moves[n].challenge.nonce
        {
          MadeByStores(moves[..n], m);
          var i :| 0 <= i < n && moves[..n][i] == Store(m.user, m.challenge);
          assert moves[i].Store? && moves[i].challenge == m.challenge;
        }
      }
      MoveKeepsPlaces(w, moves[n]);
    }
    var w := AfterAll(moves);
    forall i, j | 0 <= i < j < |w.accepted|
      ensures w.accepted[i].challenge.nonce != w.accepted[j].challenge.nonce
    {
      assert Proper(w, w.accepted[i]) && Proper(w, w.accepted[j]);
      assert MadeFor(w.accepted[i]) != MadeFor(w.accepted[j]);
    }
  }

  /** Storing is the last step of the `CreateChallenge` of the specification, which leaves other users'
      challenges alone, and stores nothing when it fails. */
  lemma StoreIsCreateChallenge(cfg: Config, s: Auth, w: World, user: string, env: Env)
    requires w.pending == s.challenges
    ensures var (s', answer) := CreateChallengeStep(cfg, s, user, env);
      && (answer.Ok? ==>
            && answer.value == Challenged(Challenge(env.nonce, env.now + cfg.challengeTTL))
            && After(w, Store(user, answer.value.challenge)).pending == s'.challenges)
      && (answer.Fail? ==> s' == s)
      && (forall u :: u != user ==> (u in s'.challenges <==> u in s.challenges))
      && (forall u :: u != user && u in s.challenges ==> s'.challenges[u] == s.challenges[u])
      && s'.files == s.files && s'.sessions == s.sessions
  {
    hide IsRevoked;
  }

  /** Without interleaving, taking and checking is the `ValidateResponse` of the specification. */
  lemma TakeThenCheckIsValidateResponse(cfg: Config, s: Auth, w: World, thread: nat, user: string,
                                        signature: Signature, env: Env)
    requires w.pending == s.challenges && thread !in w.taken
    requires var pub := UserFile(user, Pub);
      (pub in s.files <==> user in w.keys) && (pub in s.files ==> w.keys[user] == s.files[pub])
    ensures var (s', answer) := ValidateResponseStep(cfg, s, user, signature, env);
      var readable := UserFile(user, Pub) !in env.badReads;
      var w' := After(After(w, Take(thread, user)), Check(thread, env.now, readable, signature));
      && w'.pending == s'.challenges && w'.taken == w.taken
      && (answer.Ok? <==> |w'.accepted| == |w.accepted| + 1)
      && (answer.Ok? ==>
            && user in w.keys && w.keys[user].PublicKey?
            && w'.accepted == w.accepted + [Acceptance(user, env.now, w.pending[user], w.keys[user].pair, signature)])
  {
  }
}
