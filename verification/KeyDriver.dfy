/** Any sequence of calls on the service, restarts included, over one directory: what every such run
    of the methods themselves guarantees, with failures and without. */
module KeyDriver {
  import opened Wrappers
  import opened KeyFiles
  import opened KeyDisk
  import opened KeySpec
  import opened KeyService
  import opened KeyRuns
  import opened KeyOrder
  import opened KeyMaps
  import opened KeyTrace

  /** The provider answers with the installation's KEK or not at all, possibly differently each time. */
  ghost predicate HonestProvider(k: Keks, t: Tier, slot: Option<Provider>) {
    slot.Some? ==> forall a :: a in slot.value && Usable(a).Some? ==> Usable(a).value == k.Of(t)
  }

  ghost predicate HonestWiring(k: Keks, ops: seq<Op>) {
    forall op :: op in ops && op.Wire? ==> HonestProvider(k, op.tier, op.provider)
  }

  ghost predicate SteadyWiring(ops: seq<Op>) {
    forall op :: op in ops && op.Wire? ==> Steady(op.provider)
  }

  /** The file that a call may write or remove on the caller's behalf. */
  function Touched(op: Op): set<File> {
    if op.Changes() then {TierBlob(op.ref, op.tier)} else {}
  }

  /** Some call of the run may write or delete the ref that the file belongs to. */
  ghost predicate Touches(ops: seq<Op>, f: File) {
    exists op :: op in ops && f in Touched(op)
  }

  /** The changes made since the history was `h0`. */
  ghost predicate Sound(k: Keks, ops: seq<Op>, h0: seq<Moment>, h: seq<Moment>) {
    && 1 <= |h0| <= |h| && h0 <= h
    && forall i :: |h0| <= i < |h| ==>
         && Step(h[i - 1].files, h[i])
         && (HonestWiring(k, ops) ==> HonestKek(k, h[i]))
         && (h[i].author == Caller ==> Touches(ops, h[i].file))
  }

  lemma GrowthIsSound(k: Keks, ops: seq<Op>, h0: seq<Moment>, h: seq<Moment>, h': seq<Moment>,
                      slot0: Option<Provider>, slot1: Option<Provider>, touch: set<File>)
    requires Sound(k, ops, h0, h) && Grows(h, h', slot0, slot1, touch)
    requires HonestWiring(k, ops) ==> HonestProvider(k, Tier0, slot0) && HonestProvider(k, Tier1, slot1)
    requires forall f :: f in touch ==> Touches(ops, f)
    ensures Sound(k, ops, h0, h')
  {
    forall i | |h0| <= i < |h'|
      ensures Step(h'[i - 1].files, h'[i])
      ensures HonestWiring(k, ops) ==> HonestKek(k, h'[i])
      ensures h'[i].author == Caller ==> Touches(ops, h'[i].file)
    {
      if i < |h| {
        assert h'[i] == h[i] && h'[i - 1] == h[i - 1];
      } else if HonestWiring(k, ops) && h'[i].file.Master? && h'[i].file in h'[i].files &&
        h'[i].files[h'[i].file].Sealed? {
        var t, kek := h'[i].file.tier, h'[i].files[h'[i].file].key;
        assert Gives(if t == Tier0 then slot0 else slot1, kek);
        assert Usable(Some(kek)) == Some(kek);
      }
    }
  }

  /** One call on the service, from inside or through the bindings, with what it answers. */
  method Call(svc: Service, op: Op) returns (answer: Answer)
    requires svc.Valid() && !op.Restart?
    modifies svc, svc.disk
    ensures svc.Valid()
    ensures Grows(old(svc.disk.history), svc.disk.history, svc.slot0, svc.slot1, Touched(op))
    ensures svc.slot0 == if op.Wire? && op.tier == Tier0 then op.provider else old(svc.slot0)
    ensures svc.slot1 == if op.Wire? && op.tier == Tier1 then op.provider else old(svc.slot1)
    ensures svc.disk.reliable && Steady(svc.slot0) && Steady(svc.slot1) ==>
      CleanStep(op, old(svc.View()), svc.View(), answer)
    ensures svc.FailuresMarked() && LegacyMaster !in old(svc.disk.files) ==>
      Recorded(old(svc.TrailNow()), svc.TrailNow())
  {
    hide Grows, Stores, Gets, GetsOrCreates, Migrates, Recorded, RefsOf;
    ghost var a := svc.TrailNow();
    GrowsNot(svc.disk.history, svc.slot0, svc.slot1, Touched(op));
    NothingRecorded(a);
    var source: Source := *;
    match op
    case Wire(t, provider) =>
      if t == Tier0 {
        svc.SetKEKProviderTier0(provider);
        GrowsNot(svc.disk.history, svc.slot0, svc.slot1, {});
      } else {
        svc.SetKEKProvider(provider);
      }
      answer := Acknowledged;
    case Put(t, ref, plain) =>
      var r;
      if t == Tier0 {
        r := svc.PutTier0(ref, plain, source);
      } else {
        r := svc.PutTier1(ref, plain, source);
      }
      answer := if r.Ok? then Acknowledged else Failed(r.error);
    case Get(t, ref) =>
      var r := svc.GetTier(t, ref);
      answer := svc.AnswerOf(r);
    case GetOrCreate(t, ref, generated) =>
      var r := svc.GetOrCreate(t, ref, generated);
      answer := svc.AnswerOf(r);
    case Has(t, ref) =>
      var r := svc.HasTier(t, ref);
      answer := if r.Ok? then Present(r.value) else Failed(r.error);
    case Delete(t, ref) =>
      var r := svc.DeleteTier(t, ref, source);
      answer := if r.Ok? then Acknowledged else Failed(r.error);
    case List(t) =>
      var r := svc.ListTier(t);
      answer := if r.Some? then Refs(set ref | ref in r.value) else Failed(ReadFailed);
    case Shutdown =>
      svc.ServiceShutdown();
      answer := Acknowledged;
  }

  function SlotAfter(op: Op, t: Tier, slot: Option<Provider>): Option<Provider> {
    if op.Restart? then None else if op.Wire? && op.tier == t then op.provider else slot
  }

  /** One call, or a stop and a new service over the same directory, recorder and bus. */
  method Next(svc: Service, op: Op) returns (svc': Service, answer: Answer)
    requires svc.Valid()
    modifies svc, svc.disk
    ensures svc' == svc || fresh(svc')
    ensures svc'.Valid() && svc'.disk == svc.disk && svc'.errorCode == svc.errorCode
    ensures Grows(old(svc.disk.history), svc.disk.history, svc'.slot0, svc'.slot1, Touched(op))
    ensures svc'.slot0 == SlotAfter(op, Tier0, old(svc.slot0)) && svc'.slot1 == SlotAfter(op, Tier1, old(svc.slot1))
    ensures svc.disk.reliable && Steady(svc'.slot0) && Steady(svc'.slot1) ==>
      CleanStep(op, old(svc.View()), svc'.View(), answer)
    ensures svc.FailuresMarked() && LegacyMaster !in old(svc.disk.files) ==>
      Recorded(old(svc.TrailNow()), svc'.TrailNow())
  {
    hide Grows, CleanStep, Recorded, RefsOf;
    if op.Restart? {
      GrowsNot(svc.disk.history, None, None, Touched(op));
      NothingRecorded(svc.TrailNow());
      RestartIsClean(svc.View());
      svc' := new Service(svc.disk, svc.errorCode, svc.rows, svc.bus);
      answer := Acknowledged;
    } else {
      answer := Call(svc, op);
      svc' := svc;
    }
  }

  /** The part of a history that a run added, with the moment it started from, is a run of steps. */
  lemma SoundIsSteps(k: Keks, ops: seq<Op>, h0: seq<Moment>, h: seq<Moment>)
    requires Sound(k, ops, h0, h)
    ensures Steps(h[|h0| - 1..])
    ensures HonestWiring(k, ops) ==> HonestSteps(k, h[|h0| - 1..])
    ensures LegacyMaster !in h0[|h0| - 1].files ==> LegacyMaster !in h[|h| - 1].files
  {
    var g := h[|h0| - 1..];
    assert forall i :: 0 <= i < |g| ==> g[i] == h[i + |h0| - 1];
    forall i | 0 < i < |g|
      ensures Step(g[i - 1].files, g[i])
      ensures HonestWiring(k, ops) ==> HonestKek(k, g[i])
    {
      var j := i + |h0| - 1;
      assert Step(h[j - 1].files, h[j]);
    }
    LegacyOnlyGoes(g, 0, |g| - 1, LegacyMaster);
    assert g[0] == h0[|h0| - 1];
  }

  ghost predicate Honest(k: Keks, slot0: Option<Provider>, slot1: Option<Provider>) {
    HonestProvider(k, Tier0, slot0) && HonestProvider(k, Tier1, slot1)
  }

  ghost predicate RecordedRun(trails: seq<Trail>) {
    forall i :: 0 < i < |trails| ==> Recorded(trails[i - 1], trails[i])
  }

  /** Any calls, in any order, over a directory: every change to it is a sound one; the trail of
      audit rows is truthful; and on a reliable disk with steady providers it is a clean run. */
  method AnyRun(disk: Disk, ops: seq<Op>, errorCode: KeyError -> string, ghost k: Keks)
    returns (svc: Service, answers: seq<Answer>, ghost states: seq<Vault>, ghost trails: seq<Trail>)
    requires disk.Valid()
    modifies disk
    ensures fresh(svc) && svc.disk == disk && svc.Valid()
    ensures disk.Valid() && Sound(k, ops, old(disk.history), disk.history)
    ensures |states| == |ops| + 1 && |answers| == |ops| && |trails| == |ops| + 1
    ensures states[0] == Vault(old(disk.files), None, None, None, None, false)
    ensures states[|ops|].files == disk.files
    ensures trails[0] == Trail(RefsOf(old(disk.files), Tier1), [], [])
    ensures trails[|ops|] == svc.TrailNow()
    ensures disk.reliable && SteadyWiring(ops) ==> CleanRun(ops, states, answers)
    ensures LegacyMaster !in old(disk.files) && (forall e :: errorCode(e) != "") ==> RecordedRun(trails)
  {
    hide Grows, CleanStep, Recorded, RefsOf, Sound, Step, HonestWiring, SteadyWiring, Honest, Steady, SlotAfter;
    NoSlots(k);
    ghost var h0 := disk.history;
    svc := new Service(disk, errorCode, [], []);
    answers, states, trails := [], [svc.View()], [svc.TrailNow()];
    assert Sound(k, ops, h0, h0) by { StartIsSound(k, ops, h0); }
    for n := 0 to |ops|
      invariant svc.Valid() && svc.disk == disk && svc.errorCode == errorCode && fresh(svc)
      invariant Sound(k, ops, h0, disk.history)
      invariant |answers| == n && |states| == n + 1 && |trails| == n + 1
      invariant states[0] == Vault(old(disk.files), None, None, None, None, false)
      invariant trails[0] == Trail(RefsOf(old(disk.files), Tier1), [], [])
      invariant states[n] == svc.View() && trails[n] == svc.TrailNow()
      invariant HonestWiring(k, ops) ==> Honest(k, svc.slot0, svc.slot1)
      invariant SteadyWiring(ops) ==> Steady(svc.slot0) && Steady(svc.slot1)
      invariant disk.reliable && SteadyWiring(ops) ==>
        forall i :: 0 <= i < n ==> CleanStep(ops[i], states[i], states[i + 1], answers[i])
      invariant LegacyMaster !in old(disk.files) ==> LegacyMaster !in disk.files
      invariant LegacyMaster !in old(disk.files) && svc.FailuresMarked() ==> RecordedRun(trails)
    {
      var op := ops[n];
      ghost var h, before := disk.history, svc.TrailNow();
      assert op in ops;
      var answer;
      SlotsAfter(k, ops, op, svc.slot0, svc.slot1);
      svc, answer := Next(svc, op);
      CallIsSound(k, ops, op, h0, h, disk.history, svc.slot0, svc.slot1);
      SoundIsSteps(k, ops, h0, disk.history);
      assert before == trails[n];
      answers, states, trails := answers + [answer], states + [svc.View()], trails + [svc.TrailNow()];
    }
  }

  lemma SlotsAfter(k: Keks, ops: seq<Op>, op: Op, slot0: Option<Provider>, slot1: Option<Provider>)
    requires op in ops
    ensures HonestWiring(k, ops) && Honest(k, slot0, slot1) ==>
      Honest(k, SlotAfter(op, Tier0, slot0), SlotAfter(op, Tier1, slot1))
    ensures SteadyWiring(ops) && Steady(slot0) && Steady(slot1) ==>
      Steady(SlotAfter(op, Tier0, slot0)) && Steady(SlotAfter(op, Tier1, slot1))
  {
  }

  lemma NoSlots(k: Keks)
    ensures Honest(k, None, None) && Steady(None)
  {
  }

  lemma StartIsSound(k: Keks, ops: seq<Op>, h: seq<Moment>)
    requires h != []
    ensures Sound(k, ops, h, h)
  {
  }

  lemma RestartIsClean(v: Vault)
    ensures CleanStep(Restart, v, Vault(v.files, None, None, None, None, false), Acknowledged)
  {
  }

  lemma CallIsSound(k: Keks, ops: seq<Op>, op: Op, h0: seq<Moment>, h: seq<Moment>, h': seq<Moment>,
                    slot0: Option<Provider>, slot1: Option<Provider>)
    requires op in ops && Sound(k, ops, h0, h)
    requires Grows(h, h', slot0, slot1, Touched(op))
    requires HonestWiring(k, ops) ==> Honest(k, slot0, slot1)
    ensures Sound(k, ops, h0, h')
  {
    GrowthIsSound(k, ops, h0, h, h', slot0, slot1, Touched(op));
  }

  /** Up to moment i of a run that began with the history h0, no caller has harmed the secret. */
  ghost predicate SparedSince(h0: seq<Moment>, h: seq<Moment>, ref: string, i: nat)
    requires 1 <= |h0| <= i < |h|
  {
    forall j :: |h0| <= j <= i ==> Spares(h[j - 1].files, h[j], ref)
  }

  /** Crash safety of the methods: after every single write or removal of any run over a legacy
      directory, on a disk that may fail at any operation, a legacy secret is recoverable unless a
      caller has by then overwritten or deleted it in the only place where it was. A stop is a disk that
      fails until the next `Restart`. */
  method RunLosesNothing(disk: Disk, ops: seq<Op>, errorCode: KeyError -> string,
                         ghost k: Keks, ghost ref: string, ghost plain: Bytes)
    requires disk.Valid() && HonestWiring(k, ops) && Install(k, disk.files)
    requires OpensUnder(k, disk.files, LegacyBlob(ref), LegacyMaster, plain)
    modifies disk
    ensures 1 <= |old(disk.history)| <= |disk.history|
    ensures forall i ::
      |old(disk.history)| <= i < |disk.history| && SparedSince(old(disk.history), disk.history, ref, i) ==>
      Recoverable(k, disk.history[i].files, ref, plain)
    ensures !Touches(ops, HomeFile(ref)) ==>
      forall i :: |old(disk.history)| <= i < |disk.history| ==> Recoverable(k, disk.history[i].files, ref, plain)
  {
    hide OpensUnder, Install, Recoverable, Sound, Touches, HonestWiring, SparedSince;
    ghost var h0 := disk.history;
    ghost var states, trails;
    var svc, answers;
    svc, answers, states, trails := AnyRun(disk, ops, errorCode, k);
    SoundRunLosesNothing(k, ops, h0, disk.history, ref, plain);
    forall i | |h0| <= i < |disk.history| && !Touches(ops, HomeFile(ref))
      ensures SparedSince(h0, disk.history, ref, i)
    {
      UntouchedIsSpared(k, ops, h0, disk.history, ref, i);
    }
  }

  lemma UntouchedIsSpared(k: Keks, ops: seq<Op>, h0: seq<Moment>, h: seq<Moment>, ref: string, i: nat)
    requires Sound(k, ops, h0, h) && !Touches(ops, HomeFile(ref)) && |h0| <= i < |h|
    ensures SparedSince(h0, h, ref, i)
  {
    hide Touches, Step, HonestWiring;
  }

  lemma SoundRunLosesNothing(k: Keks, ops: seq<Op>, h0: seq<Moment>, h: seq<Moment>, ref: string, plain: Bytes)
    requires Sound(k, ops, h0, h) && HonestWiring(k, ops)
    requires Install(k, h0[|h0| - 1].files)
    requires OpensUnder(k, h0[|h0| - 1].files, LegacyBlob(ref), LegacyMaster, plain)
    ensures |h0| <= |h|
    ensures forall i :: |h0| <= i < |h| && SparedSince(h0, h, ref, i) ==> Recoverable(k, h[i].files, ref, plain)
  {
    hide OpensUnder, Install, Recoverable, Touches, HonestWiring, Spares;
    SoundIsSteps(k, ops, h0, h);
    var g := h[|h0| - 1..];
    assert g[0] == h0[|h0| - 1];
    assert forall i :: 0 <= i < |g| ==> g[i] == h[i + |h0| - 1];
    forall i | |h0| <= i < |h| && SparedSince(h0, h, ref, i)
      ensures Recoverable(k, h[i].files, ref, plain)
    {
      var n := i - (|h0| - 1);
      forall j | 0 < j <= n
        ensures Spares(g[j - 1].files, g[j], ref)
      {
        assert g[j] == h[j + |h0| - 1] && g[j - 1] == h[j + |h0| - 2];
      }
      NoSecretLost(k, g, ref, plain, n);
    }
  }

  /** The methods over a directory without legacy files, on a disk that may fail at any operation: after
      any run, a tier that can be listed lists each ref once, and a ref exactly when the service says
      it has it; everything it lists is a ref that it accepts. */
  method RunThenList(disk: Disk, ops: seq<Op>, errorCode: KeyError -> string, t: Tier, ref: string)
    returns (listed: Option<seq<string>>, has: Result<bool, KeyError>)
    requires disk.Valid() && LegacyMaster !in disk.files
    requires forall f :: f in disk.files && f.TierBlob? ==> Accepted(f.ref)
    modifies disk
    ensures disk.reliable ==> listed.Some?
    ensures listed.Some? ==> forall i, j :: 0 <= i < j < |listed.value| ==> listed.value[i] != listed.value[j]
    ensures listed.Some? ==> (ref in listed.value <==> has == Ok(true))
    ensures listed.Some? ==> forall r :: r in listed.value ==> Accepted(r)
  {
    hide RefProblem, Sound, CleanRun, RecordedRun;
    ghost var k, h0, states, trails := Keks([], []), disk.history, [], [];
    var svc, answers;
    svc, answers, states, trails := AnyRun(disk, ops, errorCode, k);
    forall f | f in disk.files && f.TierBlob?
      ensures Accepted(f.ref)
    {
      SoundRunAcceptsRefs(k, ops, h0, disk.history, f);
    }
    listed := svc.ListTier(t);
    has := svc.HasTier(t, ref);
    assert forall r :: TierBlob(r, t) in disk.files ==> Accepted(TierBlob(r, t).ref);
  }

  lemma SoundRunAcceptsRefs(k: Keks, ops: seq<Op>, h0: seq<Moment>, h: seq<Moment>, f: File)
    requires Sound(k, ops, h0, h)
    requires var a := h0[|h0| - 1].files; LegacyMaster !in a && forall g :: g in a && g.TierBlob? ==> Accepted(g.ref)
    requires f in h[|h| - 1].files && f.TierBlob?
    ensures Accepted(f.ref)
  {
    hide RefProblem, Step, HonestWiring, Touches;
    SoundIsSteps(k, ops, h0, h);
    var g := h[|h0| - 1..];
    assert g[0] == h0[|h0| - 1] && g[|g| - 1] == h[|h| - 1];
    OnlyAcceptedRefs(g, |g| - 1, f);
  }

  /** The audit trail of the methods, on a disk that may fail at any operation: after any run over a
      directory without a legacy master and with an empty tier 1, folding the ok rows that the recorder
      has received gives the tier-1 refs on disk, and the messages on the bus are those of its Replaced
      and Deleted ok rows, in order. */
  method RunAudits(disk: Disk, ops: seq<Op>, errorCode: KeyError -> string) returns (svc: Service)
    requires disk.Valid() && LegacyMaster !in disk.files && forall ref :: TierBlob(ref, Tier1) !in disk.files
    requires forall e :: errorCode(e) != ""
    modifies disk
    ensures fresh(svc) && svc.disk == disk
    ensures Replay(svc.rows) == RefsOf(disk.files, Tier1)
    ensures Broadcasts(svc.rows) == svc.bus
  {
    hide Sound, CleanRun, Recorded;
    ghost var k, states, trails := Keks([], []), [], [];
    var answers;
    assert RefsOf(disk.files, Tier1) == {};
    svc, answers, states, trails := AnyRun(disk, ops, errorCode, k);
    AuditReplay(trails, |ops|);
  }

  /** The methods over an empty, reliable directory: every answer is the two maps' answer, and the
      audit rows and messages of the service tell the tier-1 refs. */
  method RunAnswersAsMaps(disk: Disk, ops: seq<Op>, errorCode: KeyError -> string, ghost k: Keks)
    returns (svc: Service, answers: seq<Answer>)
    requires disk.Valid() && disk.reliable && disk.files == map[]
    requires |k.kek0| == KEY_SIZE && |k.kek1| == KEY_SIZE
    requires forall i :: 0 <= i < |ops| ==> HonestOp(k, ops[i])
    requires forall e :: errorCode(e) != ""
    modifies disk
    ensures fresh(svc) && svc.disk == disk
    ensures |answers| == |ops|
    ensures forall i :: 0 <= i < |ops| ==> answers[i] == MapsStep(ops[i], MapsAfter(ops[..i])).1
    ensures forall i :: 0 <= i < |ops| ==> Told(ops, answers, i)
    ensures Replay(svc.rows) == MapsAfter(ops).map1.Keys
    ensures Broadcasts(svc.rows) == svc.bus
  {
    hide MapsStep, CleanStep, Refines, Told;
    ghost var states, trails;
    svc, answers, states, trails := AnyRun(disk, ops, errorCode, k);
    assert SteadyWiring(ops) by {
      forall op | op in ops && op.Wire?
        ensures Steady(op.provider)
      {
        var i :| 0 <= i < |ops| && ops[i] == op;
        assert HonestOp(k, ops[i]);
      }
    }
    forall i | 0 <= i < |ops|
      ensures answers[i] == MapsStep(ops[i], MapsAfter(ops[..i])).1
    {
      StoreIsTwoMaps(k, ops, states, answers, i);
    }
    forall i | 0 <= i < |ops|
      ensures Told(ops, answers, i)
    {
      AnswersFollow(ops, answers, i);
    }
    StoreIsTwoMaps(k, ops, states, answers, |ops|);
    assert ops[..|ops|] == ops;
    RefinesRefs(k, states[|ops|], MapsAfter(ops));
    assert trails[0] == Trail({}, [], []);
    AuditReplay(trails, |ops|);
  }

  lemma RefinesRefs(k: Keks, v: Vault, s: Maps)
    requires Refines(k, v, s)
    ensures RefsOf(v.files, Tier1) == s.map1.Keys
  {
    MapRefs(k, v.files, Tier1, s.map1);
  }
}
