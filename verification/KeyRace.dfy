/** Concurrent get-or-create on one ref (go/keys/service.go, getOrCreate): any number of threads, any
    interleaving of their reads, lock, generation and of the two halves of a write. */
module KeyRace {
  import opened Wrappers
  import opened KeyFiles
  import opened KeySpec
  import opened KeyMaps

  /** What reading the blob under the tier's master gives: a half-written file does not open. */
  datatype Contents = Absent | Torn | Whole(bytes: Bytes)

  datatype Phase =
    | Start
    | Waiting
    | Locked
    | Missed
    | Generated(raw: Bytes)
    | Writing(raw: Bytes)
    | Returned(result: Option<Bytes>)
  {
    predicate HoldsLock() {
      Locked? || Missed? || Generated? || Writing?
    }

    predicate WillStore() {
      Missed? || Generated? || Writing?
    }
  }

  datatype World = World(file: Contents, lock: Option<nat>, threads: map<nat, Phase>, stores: seq<Bytes>) {
    function At(t: nat, p: Phase): World {
      this.(threads := threads[t := p])
    }

    function Return(t: nat, result: Option<Bytes>): World {
      this.(threads := threads[t := Returned(result)], lock := None)
    }
  }

  /** One thread's next move. The unlocked fast read may miss for any reason, also beside a write in
      progress; `misread` is a read under the lock that fails although the blob is whole. */
  datatype Move =
    | FastRead(t: nat, missed: bool)
    | Acquire(t: nat)
    | SlowRead(t: nat, misread: bool)
    | Generate(t: nat, raw: Option<Bytes>)
    | BeginWrite(t: nat)
    | EndWrite(t: nat, ok: bool, left: Contents)

  /** The world after a move; a move that is not enabled changes nothing. */
  function After(w: World, move: Move): World {
    var t := move.t;
    if t !in w.threads then w
    else
      match (move, w.threads[t])
      case (FastRead(_, missed), Start) =>
        if w.file.Whole? && !missed then w.At(t, Returned(Some(w.file.bytes))) else w.At(t, Waiting)
      case (Acquire(_), Waiting) =>
        if w.lock.None? then w.At(t, Locked).(lock := Some(t)) else w
      case (SlowRead(_, misread), Locked) =>
        if w.file.Whole? && !misread then w.Return(t, Some(w.file.bytes)) else w.At(t, Missed)
      case (Generate(_, raw), Missed) =>
        if raw.Some? then w.At(t, Generated(raw.value)) else w.Return(t, None)
      case (BeginWrite(_), Generated(raw)) =>
        w.At(t, Writing(raw)).(file := Torn)
      case (EndWrite(_, ok, left), Writing(raw)) =>
        if ok then w.Return(t, Some(raw)).(file := Whole(raw), stores := w.stores + [raw])
        else w.Return(t, None).(file := if left.Whole? then Torn else left)
      case _ => w
  }

  function AfterAll(w: World, moves: seq<Move>): World {
    if moves == [] then w else After(AfterAll(w, moves[..|moves| - 1]), moves[|moves| - 1])
  }

  /** Threads about to call, nobody in the lock, and the ref stored already or not. */
  predicate Fresh(w: World) {
    w.lock.None? && w.stores == [] && forall t :: t in w.threads ==> w.threads[t] == Start
  }

  predicate Faithful(moves: seq<Move>) {
    forall move :: move in moves && move.SlowRead? ==> !move.misread
  }

  /** Thread t has returned with bytes. */
  predicate Got(w: World, t: nat) {
    t in w.threads && w.threads[t].Returned? && w.threads[t].result.Some?
  }

  /** One thread at most is inside the lock; nobody is on the way to store while a whole blob is
      there; and whoever returned bytes returned that blob's. */
  ghost predicate Agreed(w0: World, w: World) {
    && (forall t :: t in w.threads && w.threads[t].HoldsLock() ==> w.lock == Some(t))
    && (w.file.Whole? ==> forall t :: t in w.threads ==> !w.threads[t].WillStore())
    && (forall t :: Got(w, t) ==> w.file == Whole(w.threads[t].result.value))
    && (w.stores == [] || (|w.stores| == 1 && w.file == Whole(w.stores[0])))
    && (w0.file.Whole? ==> w.file == w0.file && w.stores == [])
  }

  lemma MoveKeepsAgreement(w0: World, w: World, move: Move)
    requires Agreed(w0, w) && (move.SlowRead? ==> !move.misread)
    ensures Agreed(w0, After(w, move))
  {
    var w', t := After(w, move), move.t;
    if t in w.threads {
      assert forall u :: u != t ==> (u in w'.threads <==> u in w.threads);
      assert forall u :: u in w.threads && u != t ==> w'.threads[u] == w.threads[u];
    }
  }

  /** Whatever the interleaving, at most one generate-and-store succeeds, and every caller that gets
      bytes gets the same ones: those stored, or those that were there from the start. */
  lemma {:induction false} RacersAgree(w0: World, moves: seq<Move>)
    requires Fresh(w0) && Faithful(moves)
    ensures Agreed(w0, AfterAll(w0, moves))
    ensures var w := AfterAll(w0, moves);
      && |w.stores| <= 1 && (w0.file.Whole? ==> w.stores == [] && w.file == w0.file)
      && forall t, u :: Got(w, t) && Got(w, u) ==> w.threads[t] == w.threads[u]
  {
    if moves != [] {
      var n := |moves| - 1;
      assert moves[n] in moves;
      RacersAgree(w0, moves[..n]);
      MoveKeepsAgreement(w0, AfterAll(w0, moves[..n]), moves[n]);
    }
  }

  /** Nor does a caller fail for being beside others: it comes back without bytes only when generating or
      storing has failed. */
  lemma FailsForReason(w: World, move: Move, t: nat)
    requires t in w.threads && !w.threads[t].Returned?
    requires t in After(w, move).threads && After(w, move).threads[t] == Returned(None)
    ensures move == Generate(t, None) || (move.EndWrite? && move.t == t && !move.ok)
  {
  }

  // ---------------------------------------------------------------- reads that fail under the lock

  /** Whoever has bytes has the same ones. */
  ghost predicate AllAgree(w: World) {
    forall t, u :: Got(w, t) && Got(w, u) ==> w.threads[t] == w.threads[u]
  }

  lemma AfterMore(w: World, moves: seq<Move>, move: Move)
    ensures AfterAll(w, moves + [move]) == After(AfterAll(w, moves), move)
  {
    assert (moves + [move])[..|moves|] == moves;
  }

  lemma AfterTwo(w: World, moves: seq<Move>, a: Move, b: Move)
    ensures AfterAll(w, moves + [a, b]) == After(After(AfterAll(w, moves), a), b)
  {
    hide After, AfterAll;
    AfterMore(w, moves, a);
    AfterMore(w, moves + [a], b);
    assert moves + [a] + [b] == moves + [a, b];
  }

  lemma AfterSix(w: World, moves: seq<Move>, six: seq<Move>)
    requires |six| == 6
    ensures AfterAll(w, moves + six) ==
      After(After(After(After(After(After(AfterAll(w, moves), six[0]), six[1]), six[2]), six[3]), six[4]), six[5])
  {
    hide After, AfterAll;
    AfterTwo(w, moves, six[0], six[1]);
    AfterTwo(w, moves + [six[0], six[1]], six[2], six[3]);
    AfterTwo(w, moves + [six[0], six[1]] + [six[2], six[3]], six[4], six[5]);
    assert moves + [six[0], six[1]] + [six[2], six[3]] + [six[4], six[5]] == moves + six;
  }

  lemma EntersLock(v: World, t: nat)
    requires t in v.threads && v.threads[t] == Start && v.lock.None?
    ensures After(After(v, FastRead(t, true)), Acquire(t)) == World(v.file, Some(t), v.threads[t := Locked], v.stores)
  {
    assert v.threads[t := Waiting][t := Locked] == v.threads[t := Locked];
  }

  lemma MissesAndGenerates(v: World, t: nat, misread: bool, raw: Bytes)
    requires t in v.threads && v.threads[t] == Locked && (v.file.Whole? ==> misread)
    ensures After(After(v, SlowRead(t, misread)), Generate(t, Some(raw))) ==
      v.(threads := v.threads[t := Generated(raw)])
  {
    assert v.threads[t := Missed][t := Generated(raw)] == v.threads[t := Generated(raw)];
  }

  lemma WritesOut(v: World, t: nat, raw: Bytes)
    requires t in v.threads && v.threads[t] == Generated(raw)
    ensures After(After(v, BeginWrite(t)), EndWrite(t, true, Torn)) ==
      World(Whole(raw), None, v.threads[t := Returned(Some(raw))], v.stores + [raw])
  {
    assert v.threads[t := Writing(raw)][t := Returned(Some(raw))] == v.threads[t := Returned(Some(raw))];
  }

  /** The moves of one caller that finds nothing, generates, and stores; `misread` says that its read
      under the lock fails. */
  function Creating(t: nat, misread: bool, raw: Bytes): seq<Move> {
    [FastRead(t, true), Acquire(t), SlowRead(t, misread),
     Generate(t, Some(raw)), BeginWrite(t), EndWrite(t, true, Torn)]
  }

  /** Undisturbed, and with nothing there or a read that fails, it stores its own bytes. */
  lemma CreatingStores(w: World, moves: seq<Move>, t: nat, misread: bool, raw: Bytes)
    requires var v := AfterAll(w, moves);
      t in v.threads && v.threads[t] == Start && v.lock.None? && (v.file.Whole? ==> misread)
    ensures var v, w' := AfterAll(w, moves), AfterAll(w, moves + Creating(t, misread, raw));
      w' == World(Whole(raw), None, v.threads[t := Returned(Some(raw))], v.stores + [raw])
  {
    var v := AfterAll(w, moves);
    AfterSix(w, moves, Creating(t, misread, raw));
    hide After, AfterAll;
    EntersLock(v, t);
    var v2 := World(v.file, Some(t), v.threads[t := Locked], v.stores);
    MissesAndGenerates(v2, t, misread, raw);
    var v4 := v2.(threads := v2.threads[t := Generated(raw)]);
    WritesOut(v4, t, raw);
    assert v4.threads[t := Returned(Some(raw))] == v.threads[t := Returned(Some(raw))];
  }

  /** Any two callers can be forked by one failed read: the first gets bytes, the second misses them
      before and under the lock, and stores its own over them. */
  lemma MisreadForks(w0: World, t: nat, u: nat) returns (moves: seq<Move>)
    requires Fresh(w0) && t in w0.threads && u in w0.threads && t != u
    ensures var w := AfterAll(w0, moves); Got(w, t) && Got(w, u) && w.threads[t] != w.threads[u]
  {
    if w0.file.Whole? {
      moves := [FastRead(t, false)];
      AfterMore(w0, [], moves[0]);
      assert [] + [moves[0]] == moves;
    } else {
      moves := Creating(t, false, []);
      CreatingStores(w0, [], t, false, []);
      assert [] + moves == moves;
    }
    var w := AfterAll(w0, moves);
    var other := if w.file.bytes == [] then [0] else [];
    CreatingStores(w0, moves, u, true, other);
    moves := moves + Creating(u, true, other);
  }

  lemma {:induction false} ThreadsStay(w0: World, moves: seq<Move>)
    ensures AfterAll(w0, moves).threads.Keys == w0.threads.Keys
  {
    if moves != [] {
      ThreadsStay(w0, moves[..|moves| - 1]);
    }
  }

  /** When reads under the lock may fail, callers are sure to agree exactly when there are not two. */
  lemma AgreeExactly(w0: World)
    requires Fresh(w0)
    ensures (forall moves :: AllAgree(AfterAll(w0, moves))) <==>
      (forall t, u :: t in w0.threads && u in w0.threads ==> t == u)
  {
    if t, u :| t in w0.threads && u in w0.threads && t != u {
      var moves := MisreadForks(w0, t, u);
      assert !AllAgree(AfterAll(w0, moves));
    } else {
      forall moves
        ensures AllAgree(AfterAll(w0, moves))
      {
        ThreadsStay(w0, moves);
      }
    }
  }

  // ---------------------------------------------------------------- one caller at a time

  /** The contents of a ref's file in a store that is a map. */
  function ContentsOf(m: map<string, Bytes>, ref: string): Contents {
    if ref in m then Whole(m[ref]) else Absent
  }

  /** All that one caller does, reads and writes that do not fail. */
  function Alone(t: nat, generated: Option<Bytes>, there: bool): seq<Move> {
    [FastRead(t, !there), Acquire(t), SlowRead(t, false),
     Generate(t, generated), BeginWrite(t), EndWrite(t, true, Torn)]
  }

  function Caller(file: Contents, t: nat, p: Phase): World {
    World(file, None, map[t := p], [])
  }

  lemma ReturnedStays(w: World, t: nat, move: Move)
    requires t in w.threads && w.threads[t].Returned? && move.t == t
    ensures After(w, move) == w
  {
  }

  lemma AloneFinds(bytes: Bytes, generated: Option<Bytes>, t: nat)
    ensures AfterAll(Caller(Whole(bytes), t, Start), Alone(t, generated, true)) ==
      Caller(Whole(bytes), t, Returned(Some(bytes)))
  {
    var w, six := Caller(Whole(bytes), t, Start), Alone(t, generated, true);
    var done := Caller(Whole(bytes), t, Returned(Some(bytes)));
    assert [] + six == six && AfterAll(w, []) == w;
    AfterSix(w, [], six);
    assert w.threads[t := Returned(Some(bytes))] == done.threads;
    assert After(w, six[0]) == done;
    hide After, AfterAll;
    ReturnedStays(done, t, six[1]);
    ReturnedStays(done, t, six[2]);
    ReturnedStays(done, t, six[3]);
    ReturnedStays(done, t, six[4]);
    ReturnedStays(done, t, six[5]);
  }

  lemma AloneGivesUp(t: nat)
    ensures AfterAll(Caller(Absent, t, Start), Alone(t, None, false)) == Caller(Absent, t, Returned(None))
  {
    var w, six, done := Caller(Absent, t, Start), Alone(t, None, false), Caller(Absent, t, Returned(None));
    assert [] + six == six && AfterAll(w, []) == w;
    AfterSix(w, [], six);
    hide AfterAll;
    EntersLock(w, t);
    GenerationFails(World(Absent, Some(t), w.threads[t := Locked], []), t);
    assert w.threads[t := Locked][t := Returned(None)] == done.threads;
    hide After;
    ReturnedStays(done, t, six[4]);
    ReturnedStays(done, t, six[5]);
  }

  lemma GenerationFails(v: World, t: nat)
    requires t in v.threads && v.threads[t] == Locked && !v.file.Whole?
    ensures After(After(v, SlowRead(t, false)), Generate(t, None)) ==
      v.(threads := v.threads[t := Returned(None)], lock := None)
  {
    assert v.threads[t := Missed][t := Returned(None)] == v.threads[t := Returned(None)];
  }

  /** Without other callers, the moves are the get-or-create of the two maps, which is what every run
      of the service answers: the same bytes come back and the same blob is left. */
  lemma AloneIsGetOrCreate(s: Maps, tier: Tier, ref: string, generated: Option<Bytes>, t: nat)
    requires s.Live(tier) && Accepted(ref)
    ensures var (s', answer) := MapsStep(GetOrCreate(tier, ref, generated), s);
      var w := AfterAll(Caller(ContentsOf(s.Map(tier), ref), t, Start), Alone(t, generated, ref in s.Map(tier)));
      && w.file == ContentsOf(s'.Map(tier), ref) && w.lock.None?
      && w.threads == map[t := Returned(if answer.Found? then Some(answer.plain) else None)]
  {
    hide RefProblem, After, AfterAll;
    if ref in s.Map(tier) {
      AloneFinds(s.Map(tier)[ref], generated, t);
    } else if generated.None? {
      AloneGivesUp(t);
    } else {
      var w := Caller(Absent, t, Start);
      assert [] + Creating(t, false, generated.value) == Alone(t, generated, false);
      assert AfterAll(w, []) == w by { NoMoves(w); }
      CreatingStores(w, [], t, false, generated.value);
      assert w.threads[t := Returned(generated)] == map[t := Returned(generated)];
    }
  }

  lemma NoMoves(w: World)
    ensures AfterAll(w, []) == w
  {
  }
}
