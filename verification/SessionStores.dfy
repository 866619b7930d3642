/** The two session stores of go/auth: one filters a map in place, the other walks a snapshot of
    serialised rows and deletes by key. Both are proved against one meaning. */
module SessionStores {
  import opened Wrappers

  datatype Session = Session(token: string, user: string, expires: int)

  type Sessions = map<string, Session>

  datatype StoreError = NotFound | Malformed

  datatype StoreOp = Get(token: string) | Set(session: Session) | Delete(token: string)
    | DeleteByUser(user: string) | Cleanup

  datatype StoreAnswer = Got(session: Session) | Fine | Removed(count: nat) | Refused(error: StoreError)

  // ---------------------------------------------------------------- what a store means

  predicate Expired(s: Session, now: int) {
    now > s.expires
  }

  function WithoutUser(m: Sessions, user: string): Sessions {
    map t | t in m && m[t].user != user :: m[t]
  }

  function WithoutExpired(m: Sessions, now: int): Sessions {
    map t | t in m && !Expired(m[t], now) :: m[t]
  }

  lemma WithoutExpiredIsSmaller(m: Sessions, now: int)
    ensures |WithoutExpired(m, now)| <= |m|
  {
    SubmapIsSmaller(WithoutExpired(m, now), m);
  }

  lemma {:induction false} SubmapIsSmaller<K, V>(a: map<K, V>, b: map<K, V>)
    requires a.Keys <= b.Keys
    ensures |a| <= |b|
    decreases |a|
  {
    if a.Keys != {} {
      var k :| k in a;
      SubmapIsSmaller(a - {k}, b - {k});
      CardWithout(a, k);
      CardWithout(b, k);
    }
  }

  lemma CardWithout<K, V>(m: map<K, V>, k: K)
    requires k in m
    ensures |m - {k}| == |m| - 1
  {
    assert (m - {k}).Keys == m.Keys - {k};
  }

  function StoreStep(op: StoreOp, now: int, m: Sessions): (Sessions, StoreAnswer) {
    match op
    case Get(token) => (m, if token in m then Got(m[token]) else Refused(NotFound))
    case Set(session) => (m[session.token := session], Fine)
    case Delete(token) => if token in m then (m - {token}, Fine) else (m, Refused(NotFound))
    case DeleteByUser(user) => (WithoutUser(m, user), Fine)
    case Cleanup =>
      WithoutExpiredIsSmaller(m, now);
      (WithoutExpired(m, now), Removed(|m| - |WithoutExpired(m, now)|))
  }

  function StoreRun(ops: seq<StoreOp>, clock: seq<int>, m: Sessions): (Sessions, seq<StoreAnswer>)
    requires |clock| == |ops|
  {
    if ops == [] then (m, [])
    else
      var n := |ops| - 1;
      var (m', answers) := StoreRun(ops[..n], clock[..n], m);
      var (m'', answer) := StoreStep(ops[n], clock[n], m');
      (m'', answers + [answer])
  }

  // ---------------------------------------------------------------- in memory

  class MemorySessionStore {
    var sessions: Sessions

    constructor ()
      ensures sessions == map[]
    {
      sessions := map[];
    }

    method Get(token: string) returns (r: Result<Session, StoreError>)
      ensures r == if token in sessions then Ok(sessions[token]) else Fail(NotFound)
    {
      if token !in sessions {
        return Fail(NotFound);
      }
      r := Ok(sessions[token]);
    }

    method Set(session: Session)
      modifies this
      ensures sessions == old(sessions)[session.token := session]
    {
      sessions := sessions[session.token := session];
    }

    method Delete(token: string) returns (r: Result<(), StoreError>)
      modifies this
      ensures r == if token in old(sessions) then Ok(()) else Fail(NotFound)
      ensures sessions == old(sessions) - {token}
    {
      if token !in sessions {
        assert sessions == sessions - {token};
        return Fail(NotFound);
      }
      sessions := sessions - {token};
      r := Ok(());
    }

    method DeleteByUser(user: string)
      modifies this
      ensures sessions == WithoutUser(old(sessions), user)
    {
      var todo := sessions.Keys;
      while todo != {}
        invariant todo <= old(sessions).Keys
        invariant forall t :: t in sessions <==> t in old(sessions) && (t in todo || old(sessions)[t].user != user)
        invariant forall t :: t in sessions ==> sessions[t] == old(sessions)[t]
      {
        var token :| token in todo;
        todo := todo - {token};
        if sessions[token].user == user {
          sessions := sessions - {token};
        }
      }
    }

    method Cleanup(now: int) returns (count: nat)
      modifies this
      ensures sessions == WithoutExpired(old(sessions), now)
      ensures count == |old(sessions)| - |sessions|
    {
      var todo := sessions.Keys;
      count := 0;
      while todo != {}
        invariant todo <= old(sessions).Keys
        invariant forall t :: t in sessions <==> t in old(sessions) && (t in todo || !Expired(old(sessions)[t], now))
        invariant forall t :: t in sessions ==> sessions[t] == old(sessions)[t]
        invariant count == |old(sessions)| - |sessions|
      {
        var token :| token in todo;
        todo := todo - {token};
        if now > sessions[token].expires {
          CardWithout(sessions, token);
          count := count + 1;
          sessions := sessions - {token};
        }
      }
    }
  }

  // ---------------------------------------------------------------- over a key-value store

  /** A stored value: the JSON of a session, or text that is none. Marshalling and unmarshalling a
      session are inverse. */
  datatype Row = Json(session: Session) | Garbage(text: string)

  function Marshal(s: Session): Row {
    Json(s)
  }

  function Unmarshal(row: Row): Option<Session> {
    match row
    case Json(s) => Some(s)
    case Garbage(_) => None
  }

  type Rows = map<string, Row>

  /** The sessions that the rows hold, malformed rows aside. */
  function Parsed(rows: Rows): Sessions {
    map t | t in rows && Unmarshal(rows[t]).Some? :: Unmarshal(rows[t]).value
  }

  class SQLiteSessionStore {
    var rows: Rows

    ghost predicate AllParse()
      reads this
    {
      forall t :: t in rows ==> Unmarshal(rows[t]).Some?
    }

    constructor ()
      ensures rows == map[]
    {
      rows := map[];
    }

    method Get(token: string) returns (r: Result<Session, StoreError>)
      ensures r ==
        if token !in rows then Fail(NotFound)
        else if token in Parsed(rows) then Ok(Parsed(rows)[token])
        else Fail(Malformed)
    {
      if token !in rows {
        return Fail(NotFound);
      }
      var session := Unmarshal(rows[token]);
      if session.None? {
        return Fail(Malformed);
      }
      r := Ok(session.value);
    }

    method Set(session: Session)
      modifies this
      ensures rows == old(rows)[session.token := Marshal(session)]
    {
      rows := rows[session.token := Marshal(session)];
    }

    method Delete(token: string) returns (r: Result<(), StoreError>)
      modifies this
      ensures r == if token in old(rows) then Ok(()) else Fail(NotFound)
      ensures rows == old(rows) - {token}
    {
      if token !in rows {
        assert rows == rows - {token};
        return Fail(NotFound);
      }
      rows := rows - {token};
      r := Ok(());
    }

    /** Malformed rows are skipped, and stay. */
    method DeleteByUser(user: string)
      modifies this
      ensures Parsed(rows) == WithoutUser(Parsed(old(rows)), user)
      ensures forall t :: t in old(rows) && Unmarshal(old(rows)[t]).None? ==> t in rows && rows[t] == old(rows)[t]
      ensures rows.Keys <= old(rows).Keys && forall t :: t in rows ==> rows[t] == old(rows)[t]
    {
      var all := rows;
      var todo := all.Keys;
      while todo != {}
        invariant todo <= all.Keys
        invariant forall t :: t in rows <==>
          t in all && (t in todo || Unmarshal(all[t]).None? || Unmarshal(all[t]).value.user != user)
        invariant forall t :: t in rows ==> rows[t] == all[t]
      {
        var token :| token in todo;
        todo := todo - {token};
        var session := Unmarshal(all[token]);
        if session.Some? && session.value.user == user {
          rows := rows - {token};
        }
      }
    }

    method Cleanup(now: int) returns (count: nat)
      modifies this
      ensures Parsed(rows) == WithoutExpired(Parsed(old(rows)), now)
      ensures forall t :: t in old(rows) && Unmarshal(old(rows)[t]).None? ==> t in rows && rows[t] == old(rows)[t]
      ensures rows.Keys <= old(rows).Keys && forall t :: t in rows ==> rows[t] == old(rows)[t]
      ensures count == |old(rows)| - |rows|
    {
      var all := rows;
      var todo := all.Keys;
      count := 0;
      while todo != {}
        invariant todo <= all.Keys
        invariant forall t :: t in rows <==>
          t in all && (t in todo || Unmarshal(all[t]).None? || !Expired(Unmarshal(all[t]).value, now))
        invariant forall t :: t in rows ==> rows[t] == all[t]
        invariant count == |all| - |rows|
      {
        var token :| token in todo;
        todo := todo - {token};
        var session := Unmarshal(all[token]);
        if session.Some? && now > session.value.expires {
          CardWithout(rows, token);
          rows := rows - {token};
          count := count + 1;
        }
      }
    }
  }

  lemma ParsedCard(rows: Rows)
    requires forall t :: t in rows ==> Unmarshal(rows[t]).Some?
    ensures |Parsed(rows)| == |rows| && Parsed(rows).Keys == rows.Keys
  {
    assert Parsed(rows).Keys == rows.Keys;
  }

  lemma ParsedAfter(rows: Rows, token: string, s: Session)
    ensures Parsed(rows[token := Marshal(s)]) == Parsed(rows)[token := s]
  {
  }

  lemma ParsedWithout(rows: Rows, token: string)
    ensures Parsed(rows - {token}) == Parsed(rows) - {token}
    ensures token !in rows ==> Parsed(rows - {token}) == Parsed(rows)
  {
  }

  // ---------------------------------------------------------------- one meaning

  method OnMemory(store: MemorySessionStore, op: StoreOp, now: int) returns (answer: StoreAnswer)
    modifies store
    ensures (store.sessions, answer) == StoreStep(op, now, old(store.sessions))
  {
    match op
    case Get(token) =>
      var r := store.Get(token);
      answer := if r.Ok? then Got(r.value) else Refused(r.error);
    case Set(session) =>
      store.Set(session);
      answer := Fine;
    case Delete(token) =>
      var r := store.Delete(token);
      assert token !in old(store.sessions) ==> old(store.sessions) - {token} == old(store.sessions);
      answer := if r.Ok? then Fine else Refused(r.error);
    case DeleteByUser(user) =>
      store.DeleteByUser(user);
      answer := Fine;
    case Cleanup =>
      var count := store.Cleanup(now);
      answer := Removed(count);
  }

  method OnSQLite(store: SQLiteSessionStore, op: StoreOp, now: int) returns (answer: StoreAnswer)
    requires store.AllParse()
    modifies store
    ensures store.AllParse()
    ensures (Parsed(store.rows), answer) == StoreStep(op, now, Parsed(old(store.rows)))
  {
    ghost var before := store.rows;
    ParsedCard(before);
    match op
    case Get(token) =>
      var r := store.Get(token);
      answer := if r.Ok? then Got(r.value) else Refused(r.error);
    case Set(session) =>
      store.Set(session);
      ParsedAfter(before, session.token, session);
      answer := Fine;
    case Delete(token) =>
      var r := store.Delete(token);
      ParsedWithout(before, token);
      answer := if r.Ok? then Fine else Refused(r.error);
    case DeleteByUser(user) =>
      store.DeleteByUser(user);
      answer := Fine;
    case Cleanup =>
      var count := store.Cleanup(now);
      ParsedCard(store.rows);
      answer := Removed(count);
  }

  /** The same calls at the same clock readings: both stores give the same answers, the count of
      `Cleanup` and the not-found errors included, and hold the same sessions after. */
  method Lockstep(ops: seq<StoreOp>, clock: seq<int>, memory: MemorySessionStore, sqlite: SQLiteSessionStore)
    returns (fromMemory: seq<StoreAnswer>, fromSQLite: seq<StoreAnswer>)
    requires |clock| == |ops| && sqlite.AllParse() && Parsed(sqlite.rows) == memory.sessions
    modifies memory, sqlite
    ensures fromMemory == fromSQLite == StoreRun(ops, clock, old(memory.sessions)).1
    ensures Parsed(sqlite.rows) == memory.sessions == StoreRun(ops, clock, old(memory.sessions)).0
  {
    fromMemory, fromSQLite := [], [];
    for n := 0 to |ops|
      invariant sqlite.AllParse() && Parsed(sqlite.rows) == memory.sessions
      invariant StoreRun(ops[..n], clock[..n], old(memory.sessions)) == (memory.sessions, fromMemory)
      invariant fromMemory == fromSQLite
    {
      var a := OnMemory(memory, ops[n], clock[n]);
      var b := OnSQLite(sqlite, ops[n], clock[n]);
      assert ops[..n + 1][..n] == ops[..n] && clock[..n + 1][..n] == clock[..n];
      fromMemory, fromSQLite := fromMemory + [a], fromSQLite + [b];
    }
    assert ops[..|ops|] == ops && clock[..|ops|] == clock;
  }
}
