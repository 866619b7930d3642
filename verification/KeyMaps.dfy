/** From an empty directory and without failures, the key store is two independent maps from refs
    to bytes; and its audit rows tell what is in tier 1. */
module KeyMaps {
  import opened Wrappers
  import opened KeyFiles
  import opened KeyDisk
  import opened KeySpec
  import opened KeyRuns
  import opened KeyOrder

  /** What a caller sees: one map a tier, and whether the tier's KEK is live. */
  datatype Maps = Maps(map0: map<string, Bytes>, map1: map<string, Bytes>, live0: bool, live1: bool) {
    function Map(t: Tier): map<string, Bytes> {
      if t == Tier0 then map0 else map1
    }

    function WithMap(t: Tier, m: map<string, Bytes>): Maps {
      if t == Tier0 then this.(map0 := m) else this.(map1 := m)
    }

    function Live(t: Tier): bool {
      if t == Tier0 then live0 else live1
    }

    function WithLive(t: Tier, live: bool): Maps {
      if t == Tier0 then this.(live0 := live) else this.(live1 := live)
    }
  }

  function MapsPut(t: Tier, ref: string, plain: Bytes, s: Maps): (Maps, Answer) {
    if !s.Live(t) then (s, Failed(NoProvider(t)))
    else if !Accepted(ref) then (s, Failed(BadRef(RefProblem(ref).value)))
    else (s.WithMap(t, s.Map(t)[ref := plain]), Acknowledged)
  }

  function MapsGet(t: Tier, ref: string, s: Maps): Answer {
    if !s.Live(t) then Failed(NoProvider(t))
    else if !Accepted(ref) then Failed(BadRef(RefProblem(ref).value))
    else if ref !in s.Map(t) then Failed(ReadFailed)
    else Found(s.Map(t)[ref])
  }

  function MapsGetOrCreate(t: Tier, ref: string, generated: Option<Bytes>, s: Maps): (Maps, Answer) {
    if MapsGet(t, ref, s).Found? then (s, MapsGet(t, ref, s))
    else if generated.None? then (s, Failed(GenerateFailed))
    else
      var (s', stored) := MapsPut(t, ref, generated.value, s);
      (s', if stored == Acknowledged then Found(generated.value) else stored)
  }

  /** What two maps answer to an operation. A put or get first needs the tier's KEK, then an
      acceptable ref; the other operations need only the ref. */
  ghost function MapsStep(op: Op, s: Maps): (Maps, Answer) {
    match op
    case Wire(t, provider) => (s.WithLive(t, Reply(provider).Some?), Acknowledged)
    case Put(t, ref, plain) => MapsPut(t, ref, plain, s)
    case Get(t, ref) => (s, MapsGet(t, ref, s))
    case GetOrCreate(t, ref, generated) => MapsGetOrCreate(t, ref, generated, s)
    case Has(t, ref) =>
      (s, if !Accepted(ref) then Failed(BadRef(RefProblem(ref).value)) else Present(ref in s.Map(t)))
    case Delete(t, ref) =>
      if !Accepted(ref) then (s, Failed(BadRef(RefProblem(ref).value)))
      else (s.WithMap(t, s.Map(t) - {ref}), Acknowledged)
    case List(t) => (s, Refs(s.Map(t).Keys))
    case Shutdown => (s, Acknowledged)
    case Restart => (s.(live0 := false, live1 := false), Acknowledged)
  }

  ghost function MapsAfter(ops: seq<Op>): Maps {
    if ops == [] then Maps(map[], map[], false, false)
    else MapsStep(ops[|ops| - 1], MapsAfter(ops[..|ops| - 1])).0
  }

  /** The directory holds exactly a tier's map, sealed under the tier's stored master. */
  ghost predicate HoldsMap(k: Keks, a: Files, t: Tier, m: map<string, Bytes>) {
    && (Master(t) in a ==> MasterUnder(k, a, Master(t)).Some?)
    && (forall ref :: TierBlob(ref, t) in a <==> ref in m)
    && (forall ref :: ref in m ==> Accepted(ref) && OpensUnder(k, a, TierBlob(ref, t), Master(t), m[ref]))
  }

  ghost predicate TierHolds(k: Keks, v: Vault, s: Maps, t: Tier) {
    && HonestSlot(k, t, v.Slot(t)) && (s.Live(t) <==> Reply(v.Slot(t)).Some?)
    && (v.Cache(t).Some? ==> s.Live(t))
    && HoldsMap(k, v.files, t, s.Map(t))
  }

  /** The states that a service started over an empty directory can be in, as two maps. */
  ghost predicate Refines(k: Keks, v: Vault, s: Maps) {
    && |k.kek0| == KEY_SIZE && |k.kek1| == KEY_SIZE
    && v.CachesHold()
    && (forall f :: f in v.files ==> f.Master? || f.TierBlob?)
    && TierHolds(k, v, s, Tier0) && TierHolds(k, v, s, Tier1)
  }

  ghost predicate HonestOp(k: Keks, op: Op) {
    op.Wire? ==> HonestSlot(k, op.tier, op.provider)
  }

  /** ensureMaster of a live tier succeeds and changes no map; of a dead one it refuses. */
  lemma EnsureKeepsMaps(k: Keks, t: Tier, v: Vault, w: Vault, r: Result<Bytes, KeyError>, s: Maps)
    requires Refines(k, v, s) && EnsuresMaster(t, v, w, r)
    ensures Refines(k, w, s)
    ensures !s.Live(t) ==> w == v && r == Fail(NoProvider(t))
    ensures s.Live(t) ==> r.Ok? && MasterUnder(k, w.files, Master(t)) == Some(r.value)
  {
    hide RefProblem;
    var o := if t == Tier0 then Tier1 else Tier0;
    if v.files != w.files {
      assert SameBut(v.files, w.files, Master(t));
      assert At(w.files, Master(o)) == At(v.files, Master(o));
      HoldsMapAmid(k, v.files, w.files, t, s.Map(t));
      HoldsMapElsewhere(k, v.files, w.files, Master(t), o, s.Map(o));
      forall f | f in w.files
        ensures f.Master? || f.TierBlob?
      {
        assert f != Master(t) ==> At(w.files, f) == At(v.files, f);
      }
    }
  }

  /** Writing a tier's first master: there are no blobs of the tier yet. */
  lemma HoldsMapAmid(k: Keks, a: Files, b: Files, t: Tier, m: map<string, Bytes>)
    requires HoldsMap(k, a, t, m) && SameBut(a, b, Master(t)) && Master(t) !in a
    requires MasterUnder(k, b, Master(t)).Some?
    ensures HoldsMap(k, b, t, m)
  {
    hide RefProblem;
    forall ref
      ensures TierBlob(ref, t) in b <==> ref in m
      ensures ref !in m
    {
      assert At(b, TierBlob(ref, t)) == At(a, TierBlob(ref, t));
      if ref in m {
        assert false;
      }
    }
  }

  /** A change to a file of neither the tier's master nor its blobs leaves the tier alone. */
  lemma HoldsMapElsewhere(k: Keks, a: Files, b: Files, f: File, t: Tier, m: map<string, Bytes>)
    requires HoldsMap(k, a, t, m) && SameBut(a, b, f)
    requires f != Master(t) && !(f.TierBlob? && f.tier == t)
    ensures HoldsMap(k, b, t, m)
  {
    hide RefProblem;
    assert At(b, Master(t)) == At(a, Master(t));
    forall ref
      ensures At(b, TierBlob(ref, t)) == At(a, TierBlob(ref, t))
    {
    }
    forall ref | ref in m
      ensures OpensUnder(k, b, TierBlob(ref, t), Master(t), m[ref])
    {
      assert OpensUnder(k, a, TierBlob(ref, t), Master(t), m[ref]);
      assert At(b, TierBlob(ref, t)) == At(a, TierBlob(ref, t));
    }
    forall ref
      ensures TierBlob(ref, t) in b <==> ref in m
    {
      assert At(b, TierBlob(ref, t)) == At(a, TierBlob(ref, t));
    }
  }

  /** Writing or removing one blob changes the tier's map at that ref alone. */
  lemma HoldsMapAfter(k: Keks, a: Files, b: Files, t: Tier, m: map<string, Bytes>, ref: string, plain: Option<Bytes>)
    requires HoldsMap(k, a, t, m) && SameBut(a, b, TierBlob(ref, t)) && Accepted(ref)
    requires plain.Some? ==> OpensUnder(k, b, TierBlob(ref, t), Master(t), plain.value)
    requires plain.None? ==> TierBlob(ref, t) !in b
    ensures HoldsMap(k, b, t, if plain.Some? then m[ref := plain.value] else m - {ref})
  {
    hide RefProblem;
    var m' := if plain.Some? then m[ref := plain.value] else m - {ref};
    assert At(b, Master(t)) == At(a, Master(t));
    forall r
      ensures TierBlob(r, t) in b <==> r in m'
      ensures r in m' ==> Accepted(r) && OpensUnder(k, b, TierBlob(r, t), Master(t), m'[r])
    {
      if r != ref {
        assert At(b, TierBlob(r, t)) == At(a, TierBlob(r, t));
        assert r in m ==> OpensUnder(k, a, TierBlob(r, t), Master(t), m[r]);
      }
    }
  }

  lemma MapRefs(k: Keks, a: Files, t: Tier, m: map<string, Bytes>)
    requires HoldsMap(k, a, t, m)
    ensures RefsOf(a, t) == m.Keys
  {
    forall ref
      ensures ref in RefsOf(a, t) <==> TierBlob(ref, t) in a
    {
    }
  }

  lemma PutStep(k: Keks, t: Tier, ref: string, plain: Bytes, v: Vault, u: Vault, w: Vault,
                master: Result<Bytes, KeyError>, answer: Answer, s: Maps)
    requires Refines(k, v, s) && EnsuresMaster(t, v, u, master) && Puts(t, ref, plain, u, w, master, answer)
    ensures answer == MapsPut(t, ref, plain, s).1 && Refines(k, w, MapsPut(t, ref, plain, s).0)
  {
    hide RefProblem;
    EnsureKeepsMaps(k, t, v, u, master, s);
    if s.Live(t) && Accepted(ref) {
      var o := if t == Tier0 then Tier1 else Tier0;
      assert At(w.files, Master(Tier0)) == At(u.files, Master(Tier0));
      assert At(w.files, Master(Tier1)) == At(u.files, Master(Tier1));
      HoldsMapAfter(k, u.files, w.files, t, s.Map(t), ref, Some(plain));
      HoldsMapElsewhere(k, u.files, w.files, TierBlob(ref, t), o, s.Map(o));
      BlobsStillOnly(u.files, w.files, ref, t);
    }
  }

  lemma StoreStep(k: Keks, t: Tier, ref: string, plain: Bytes, v: Vault, w: Vault, answer: Answer, s: Maps)
    requires Refines(k, v, s) && Stores(t, ref, plain, v, w, answer)
    ensures answer == MapsPut(t, ref, plain, s).1 && Refines(k, w, MapsPut(t, ref, plain, s).0)
  {
    hide EnsuresMaster, Puts, RefProblem, Refines, MapsPut;
    var u, master :| EnsuresMaster(t, v, u, master) && Puts(t, ref, plain, u, w, master, answer);
    PutStep(k, t, ref, plain, v, u, w, master, answer, s);
  }

  lemma BlobsStillOnly(a: Files, b: Files, ref: string, t: Tier)
    requires SameBut(a, b, TierBlob(ref, t))
    requires forall f :: f in a ==> f.Master? || f.TierBlob?
    ensures forall f :: f in b ==> f.Master? || f.TierBlob?
  {
    forall f | f in b
      ensures f.Master? || f.TierBlob?
    {
      assert f != TierBlob(ref, t) ==> At(b, f) == At(a, f);
    }
  }

  lemma DeleteStep(k: Keks, t: Tier, ref: string, v: Vault, w: Vault, answer: Answer, s: Maps)
    requires Refines(k, v, s) && CleanStep(Delete(t, ref), v, w, answer)
    ensures answer == MapsStep(Delete(t, ref), s).1 && Refines(k, w, MapsStep(Delete(t, ref), s).0)
  {
    hide RefProblem, OpensUnder, HonestSlot, Reply, Migrates, EnsuresMaster, Puts;
    if Accepted(ref) {
      var o := if t == Tier0 then Tier1 else Tier0;
      HoldsMapAfter(k, v.files, w.files, t, s.Map(t), ref, None);
      HoldsMapElsewhere(k, v.files, w.files, TierBlob(ref, t), o, s.Map(o));
      BlobsStillOnly(v.files, w.files, ref, t);
    }
  }

  lemma GetStep(k: Keks, t: Tier, ref: string, v: Vault, w: Vault, answer: Answer, s: Maps)
    requires Refines(k, v, s) && Gets(t, ref, v, w, answer)
    ensures answer == MapsGet(t, ref, s) && Refines(k, w, s)
  {
    hide RefProblem;
    var master :| EnsuresMaster(t, v, w, master) && answer == GetAnswer(w.files, t, ref, master);
    EnsureKeepsMaps(k, t, v, w, master, s);
    if s.Live(t) && ref in s.Map(t) {
      assert OpensUnder(k, w.files, TierBlob(ref, t), Master(t), s.Map(t)[ref]);
    }
  }

  lemma GetOrCreateStep(k: Keks, t: Tier, ref: string, generated: Option<Bytes>, v: Vault, w: Vault,
                        answer: Answer, s: Maps)
    requires Refines(k, v, s) && GetsOrCreates(t, ref, generated, v, w, answer)
    ensures answer == MapsGetOrCreate(t, ref, generated, s).1
    ensures Refines(k, w, MapsGetOrCreate(t, ref, generated, s).0)
  {
    hide Gets, Stores, RefProblem, Refines, MapsGet, MapsPut;
    var u, first :| Gets(t, ref, v, u, first) &&
      if first.Found? then w == u && answer == first
      else exists u', second :: Gets(t, ref, u, u', second) && Creates(t, ref, generated, u', w, second, answer);
    GetStep(k, t, ref, v, u, first, s);
    if !first.Found? {
      var u', second :| Gets(t, ref, u, u', second) && Creates(t, ref, generated, u', w, second, answer);
      GetStep(k, t, ref, u, u', second, s);
      if generated.Some? {
        var stored :| Stores(t, ref, generated.value, u', w, stored)
          && answer == if stored == Acknowledged then Found(generated.value) else stored;
        StoreStep(k, t, ref, generated.value, u', w, stored, s);
      }
    }
  }

  /** One operation answers as the maps do, and leaves what the maps become. */
  lemma StepRefines(k: Keks, op: Op, v: Vault, w: Vault, answer: Answer, s: Maps)
    requires Refines(k, v, s) && HonestOp(k, op) && CleanStep(op, v, w, answer)
    ensures answer == MapsStep(op, s).1 && Refines(k, w, MapsStep(op, s).0)
  {
    hide Stores, Gets, GetsOrCreates, Migrates;
    match op
    case Put(t, ref, plain) =>
      hide RefProblem, Refines, MapsPut;
      StoreStep(k, t, ref, plain, v, w, answer, s);
    case Get(t, ref) =>
      hide RefProblem, Refines, MapsGet;
      GetStep(k, t, ref, v, w, answer, s);
    case GetOrCreate(t, ref, generated) =>
      hide RefProblem, Refines, MapsGetOrCreate;
      GetOrCreateStep(k, t, ref, generated, v, w, answer, s);
    case Delete(t, ref) =>
      hide *;
      DeleteStep(k, t, ref, v, w, answer, s);
    case List(t) =>
      hide RefProblem;
      MapRefs(k, v.files, t, s.Map(t));
    case Wire(t, provider) =>
      hide *;
      WireStep(k, t, provider, v, w, answer, s);
    case _ =>
      hide RefProblem, HoldsMap;
  }

  /** There is no legacy master, so wiring a provider migrates nothing. */
  lemma WireStep(k: Keks, t: Tier, provider: Option<Provider>, v: Vault, w: Vault, answer: Answer, s: Maps)
    requires Refines(k, v, s) && HonestSlot(k, t, provider) && CleanStep(Wire(t, provider), v, w, answer)
    ensures answer == MapsStep(Wire(t, provider), s).1 && Refines(k, w, MapsStep(Wire(t, provider), s).0)
  {
    hide HoldsMap;
    assert LegacyMaster !in v.files;
  }

  /** From an empty directory, every run answers exactly as two independent maps do. */
  lemma {:induction false} StoreIsTwoMaps(k: Keks, ops: seq<Op>, states: seq<Vault>, answers: seq<Answer>, i: nat)
    requires |k.kek0| == KEY_SIZE && |k.kek1| == KEY_SIZE
    requires CleanRun(ops, states, answers) && states[0] == Vault(map[], None, None, None, None, false)
    requires forall j :: 0 <= j < |ops| ==> HonestOp(k, ops[j])
    requires i <= |ops|
    ensures Refines(k, states[i], MapsAfter(ops[..i]))
    ensures i < |ops| ==> answers[i] == MapsStep(ops[i], MapsAfter(ops[..i])).1
  {
    hide MapsStep, CleanStep, Refines;
    if i > 0 {
      StoreIsTwoMaps(k, ops, states, answers, i - 1);
      StepRefines(k, ops[i - 1], states[i - 1], states[i], answers[i - 1], MapsAfter(ops[..i - 1]));
      assert ops[..i][..i - 1] == ops[..i - 1];
    } else {
      EmptyRefines(k);
    }
    if i < |ops| {
      StepRefines(k, ops[i], states[i], states[i + 1], answers[i], MapsAfter(ops[..i]));
    }
  }

  lemma EmptyRefines(k: Keks)
    requires |k.kek0| == KEY_SIZE && |k.kek1| == KEY_SIZE
    ensures Refines(k, Vault(map[], None, None, None, None, false), Maps(map[], map[], false, false))
  {
  }

  // ---------------------------------------------------------------- the audit trail

  function Replay(rows: seq<AuditRow>): set<string> {
    if rows == [] then {} else Replay1(Replay(rows[..|rows| - 1]), rows[|rows| - 1])
  }

  function Broadcasts(rows: seq<AuditRow>): seq<Change> {
    if rows == [] then [] else Broadcasts(rows[..|rows| - 1]) + Broadcast(rows[|rows| - 1])
  }

  /** Folding the ok rows of a run that began with an empty tier 1 gives exactly the tier-1 refs on
      disk, and the messages are exactly its Replaced and Deleted rows, in order. */
  lemma {:induction false} AuditReplay(trails: seq<Trail>, i: nat)
    requires trails != [] && trails[0] == Trail({}, [], [])
    requires forall j :: 0 < j < |trails| ==> Recorded(trails[j - 1], trails[j])
    requires i < |trails|
    ensures Replay(trails[i].rows) == trails[i].refs && Broadcasts(trails[i].rows) == trails[i].bus
  {
    if i > 0 {
      AuditReplay(trails, i - 1);
      var a, b := trails[i - 1], trails[i];
      assert Recorded(a, b);
      if b.rows != a.rows {
        assert b.rows[..|b.rows| - 1] == a.rows;
      }
    }
  }
}
