/** The legacy migration without failures: whatever the order in which the two providers are wired,
    tier 0 is read and `SetKEKProvider` is retried, a completed migration gives the same store. */
module KeyOrder {
  import opened Wrappers
  import opened KeyFiles
  import opened KeyDisk
  import opened KeySpec
  import opened KeyRuns

  /** A provider that, whenever it is asked, gives the installation's KEK, or always refuses. */
  ghost predicate HonestSlot(k: Keks, t: Tier, slot: Option<Provider>) {
    Steady(slot) && (Reply(slot) == None || Reply(slot) == Some(k.Of(t)))
  }

  /** A pre-partition directory: its master, raw or wrapped under the tier-1 KEK, and its blobs. Some
      of the blobs may have names that the new layout takes for its own. */
  ghost predicate LegacyInstall(k: Keks, a: Files) {
    && LegacyMasterUnder(a, k.kek1).Some?
    && |k.kek0| == KEY_SIZE && |k.kek1| == KEY_SIZE
    && (forall t :: Master(t) !in a)
    && (forall f :: f in a ==> Proper(f))
    && (forall f :: f in a && (f.LegacyBlob? || f.TierBlob?) ==>
          Open(LegacyMasterUnder(a, k.kek1).value, a[f]).Some?)
  }

  function LegacyPlain(k: Keks, a: Files, ref: string): Bytes
    requires LegacyMasterUnder(a, k.kek1).Some? && LegacyBlob(ref) in a
    requires Open(LegacyMasterUnder(a, k.kek1).value, a[LegacyBlob(ref)]).Some?
  {
    Open(LegacyMasterUnder(a, k.kek1).value, a[LegacyBlob(ref)]).value
  }

  ghost predicate SiMoved(k: Keks, a: Files, b: Files)
    requires LegacyInstall(k, a)
  {
    SI in a && SI !in b && OpensUnder(k, b, SI0, Master(Tier0), LegacyPlain(k, a, SINGLE_INSTANCE))
  }

  /** Not migrated yet; tier 0 may have moved by itself in Step 0b. */
  ghost predicate Pending(k: Keks, a: Files, b: Files)
    requires LegacyInstall(k, a)
  {
    && At(b, LegacyMaster) == At(a, LegacyMaster) && Master(Tier1) !in b
    && (Master(Tier0) in b ==> MasterUnder(k, b, Master(Tier0)).Some? && SI !in b)
    && (forall ref :: ref != SINGLE_INSTANCE ==> At(b, LegacyBlob(ref)) == At(a, LegacyBlob(ref)))
    && (forall ref :: At(b, TierBlob(ref, Tier1)) == At(a, TierBlob(ref, Tier1)))
    && (At(b, SI) == At(a, SI) || SiMoved(k, a, b))
  }

  ghost predicate Complete(k: Keks, a: Files, b: Files)
    requires LegacyInstall(k, a)
  {
    && LegacyMaster !in b && MasterUnder(k, b, Master(Tier1)) == LegacyMasterUnder(a, k.kek1)
    && (Master(Tier0) in b ==> MasterUnder(k, b, Master(Tier0)).Some?)
    && (forall ref :: At(b, TierBlob(ref, Tier1)) == Tier1After(a, {}, ref))
    && (SI in a ==> SiMoved(k, a, b))
  }

  ghost predicate Migrating(k: Keks, a: Files, v: Vault)
    requires LegacyInstall(k, a)
  {
    && v.CachesHold() && HonestSlot(k, Tier0, v.slot0) && HonestSlot(k, Tier1, v.slot1)
    && ((Pending(k, a, v.files) && !v.migrated) || Complete(k, a, v.files))
  }

  /** No caller writes, but for a boot that gets or creates the single instance where there is a
      legacy one; and nobody asks for the tier-1 master before `.master` is gone. */
  ghost predicate Waits(k: Keks, a: Files, v: Vault, op: Op) {
    match op
    case Wire(t, provider) => HonestSlot(k, t, provider)
    case Get(t, _) => t == Tier1 ==> LegacyMaster !in v.files
    case GetOrCreate(t, ref, _) => t == Tier0 && ref == SINGLE_INSTANCE && SI in a
    case Put(_, _, _) => false
    case Delete(_, _) => false
    case _ => true
  }

  /** Step 0b on a directory that waits: the single instance moves, if it is there. */
  lemma SingleInstanceMoves(k: Keks, a: Files, v: Vault, w: Vault, legacy: Bytes, r: Result<Bytes, KeyError>)
    requires LegacyInstall(k, a) && At(v.files, SI) == At(a, SI)
    requires LegacyMasterUnder(a, k.kek1) == Some(legacy) && Tier0FromLegacy(v, w, k.kek0, legacy, r)
    ensures if SI in a then SiMoved(k, a, w.files) else At(w.files, SI) == None
    ensures MasterUnder(k, w.files, Master(Tier0)).Some? && SI !in w.files
  {
    hide LegacyMasterUnder;
  }

  lemma Tier0MovesAlone(k: Keks, a: Files, v: Vault, w: Vault, legacy: Bytes, r: Result<Bytes, KeyError>)
    requires LegacyInstall(k, a) && Pending(k, a, v.files) && Master(Tier0) !in v.files
    requires LegacyMasterUnder(a, k.kek1) == Some(legacy) && Tier0FromLegacy(v, w, k.kek0, legacy, r)
    ensures Pending(k, a, w.files)
  {
    var b, c := v.files, w.files;
    assert forall f :: f != Master(Tier0) && f != SI && f != SI0 ==> At(c, f) == At(b, f);
    assert At(b, SI) == At(a, SI) by {
      hide LegacyInstall, Tier0FromLegacy;
      assert SiMoved(k, a, b) ==> Master(Tier0) in b;
    }
    SingleInstanceMoves(k, a, v, w, legacy, r);
    hide LegacyMasterUnder, Tier0FromLegacy, LegacyInstall, SiMoved, MasterUnder;
    assert At(c, LegacyMaster) == At(b, LegacyMaster) && At(c, Master(Tier1)) == At(b, Master(Tier1));
    forall ref
      ensures At(c, TierBlob(ref, Tier1)) == At(a, TierBlob(ref, Tier1))
      ensures ref != SINGLE_INSTANCE ==> At(c, LegacyBlob(ref)) == At(a, LegacyBlob(ref))
    {
      assert At(c, TierBlob(ref, Tier1)) == At(b, TierBlob(ref, Tier1));
      assert ref != SINGLE_INSTANCE ==> At(c, LegacyBlob(ref)) == At(b, LegacyBlob(ref));
    }
  }

  lemma Tier0ReadKeepsPending(k: Keks, a: Files, v: Vault, w: Vault, r: Result<Bytes, KeyError>)
    requires LegacyInstall(k, a) && HonestSlot(k, Tier0, v.slot0)
    requires Pending(k, a, v.files) && EnsuresMaster(Tier0, v, w, r)
    ensures Pending(k, a, w.files)
  {
    if v.files != w.files {
      assert At(v.files, LegacyMaster) == At(a, LegacyMaster);
      var legacy := LegacyMasterUnder(a, k.kek1).value;
      assert Tier0FromLegacy(v, w, k.kek0, legacy, r) && Master(Tier0) !in v.files by {
        LegacyKeyUnder(a, k.kek1);
        hide Tier0FromLegacy, Pending, LegacyInstall;
      }
      hide EnsuresMaster, Tier0FromLegacy, Pending, LegacyInstall;
      Tier0MovesAlone(k, a, v, w, legacy, r);
    }
  }

  lemma Tier0ReadKeepsComplete(k: Keks, a: Files, v: Vault, w: Vault, r: Result<Bytes, KeyError>)
    requires LegacyInstall(k, a) && HonestSlot(k, Tier0, v.slot0)
    requires Complete(k, a, v.files) && EnsuresMaster(Tier0, v, w, r)
    ensures Complete(k, a, w.files)
  {
    var b, c := v.files, w.files;
    if b != c {
      hide Tier1After, LegacyMasterUnder;
      assert forall f :: f != Master(Tier0) ==> At(c, f) == At(b, f);
      assert At(c, LegacyMaster) == At(b, LegacyMaster) && At(c, Master(Tier1)) == At(b, Master(Tier1));
      assert At(c, SI0) == At(b, SI0) && At(c, SI) == At(b, SI);
      forall ref
        ensures At(c, TierBlob(ref, Tier1)) == Tier1After(a, {}, ref)
      {
        assert At(c, TierBlob(ref, Tier1)) == At(b, TierBlob(ref, Tier1));
      }
    }
  }

  lemma Tier0ReadKeepsMigrating(k: Keks, a: Files, v: Vault, w: Vault, r: Result<Bytes, KeyError>)
    requires LegacyInstall(k, a) && Migrating(k, a, v) && EnsuresMaster(Tier0, v, w, r)
    ensures Migrating(k, a, w)
  {
    if Pending(k, a, v.files) && !v.migrated {
      Tier0ReadKeepsPending(k, a, v, w, r);
    } else {
      Tier0ReadKeepsComplete(k, a, v, w, r);
    }
    hide Pending, Complete, LegacyInstall, HonestSlot;
  }

  /** Where there was a legacy single instance, a tier-0 master is had only together with it. */
  lemma SingleInstanceAtHand(k: Keks, a: Files, v: Vault, w: Vault, r: Result<Bytes, KeyError>)
    requires LegacyInstall(k, a) && Migrating(k, a, v) && SI in a && EnsuresMaster(Tier0, v, w, r)
    ensures r.Ok? ==> GetAnswer(w.files, Tier0, SINGLE_INSTANCE, r) == Found(LegacyPlain(k, a, SINGLE_INSTANCE))
    ensures r.Fail? ==> w == v
  {
    SingleInstanceReading();
    LegacyKeyUnder(a, k.kek1);
    hide RefProblem, Classify;
    if SI !in v.files {
      assert SiMoved(k, a, v.files);
      assert Master(Tier0) in v.files;
    } else {
      assert Pending(k, a, v.files);
      assert At(v.files, SI) == At(a, SI) && At(v.files, LegacyMaster) == At(a, LegacyMaster);
    }
  }

  /** Whether a master can be had is settled by the state it is asked in. */
  lemma EnsureFailsAlike(t: Tier, v: Vault, w: Vault, r: Result<Bytes, KeyError>,
                         w': Vault, r': Result<Bytes, KeyError>)
    requires EnsuresMaster(t, v, w, r) && EnsuresMaster(t, v, w', r')
    ensures r.Fail? <==> r'.Fail?
  {
  }

  ghost predicate NoMaster(t: Tier, v: Vault) {
    forall w, r :: EnsuresMaster(t, v, w, r) ==> r.Fail?
  }

  lemma SingleInstanceGets(k: Keks, a: Files, v: Vault, w: Vault, answer: Answer)
    requires LegacyInstall(k, a) && Migrating(k, a, v) && SI in a && Gets(Tier0, SINGLE_INSTANCE, v, w, answer)
    ensures Migrating(k, a, w)
    ensures answer == Found(LegacyPlain(k, a, SINGLE_INSTANCE)) || (w == v && answer.Failed? && NoMaster(Tier0, v))
  {
    hide RefProblem, LegacyInstall, Migrating, EnsuresMaster, LegacyPlain;
    var master :|
      EnsuresMaster(Tier0, v, w, master) && answer == GetAnswer(w.files, Tier0, SINGLE_INSTANCE, master);
    Tier0ReadKeepsMigrating(k, a, v, w, master);
    SingleInstanceAtHand(k, a, v, w, master);
    forall w', r' | master.Fail? && EnsuresMaster(Tier0, v, w', r')
      ensures r'.Fail?
    {
      EnsureFailsAlike(Tier0, v, w, master, w', r');
    }
  }

  /** A boot that gets or creates the single instance gets the legacy one or fails; it creates none. */
  lemma BootKeepsSingleInstance(k: Keks, a: Files, generated: Option<Bytes>, v: Vault, w: Vault, answer: Answer)
    requires LegacyInstall(k, a) && Migrating(k, a, v) && SI in a
    requires GetsOrCreates(Tier0, SINGLE_INSTANCE, generated, v, w, answer)
    ensures Migrating(k, a, w)
    ensures answer == Found(LegacyPlain(k, a, SINGLE_INSTANCE)) || (w == v && answer.Failed?)
  {
    hide RefProblem, LegacyInstall, Migrating, EnsuresMaster, LegacyPlain, Gets, Stores, NoMaster;
    var u, first :| Gets(Tier0, SINGLE_INSTANCE, v, u, first) &&
      if first.Found? then w == u && answer == first
      else exists u', second ::
        Gets(Tier0, SINGLE_INSTANCE, u, u', second) &&
          Creates(Tier0, SINGLE_INSTANCE, generated, u', w, second, answer);
    SingleInstanceGets(k, a, v, u, first);
    if !first.Found? {
      var u', second :|
        Gets(Tier0, SINGLE_INSTANCE, u, u', second) &&
          Creates(Tier0, SINGLE_INSTANCE, generated, u', w, second, answer);
      SingleInstanceGets(k, a, u, u', second);
      if !second.Found? && generated.Some? {
        var stored :| Stores(Tier0, SINGLE_INSTANCE, generated.value, u', w, stored)
          && answer == if stored == Acknowledged then Found(generated.value) else stored;
        NothingStored(k, a, generated.value, v, w, stored);
      }
    }
  }

  lemma NothingStored(k: Keks, a: Files, plain: Bytes, v: Vault, w: Vault, answer: Answer)
    requires LegacyInstall(k, a) && Migrating(k, a, v) && SI in a && NoMaster(Tier0, v)
    requires Stores(Tier0, SINGLE_INSTANCE, plain, v, w, answer)
    ensures w == v && answer.Failed?
  {
    hide RefProblem, LegacyInstall, Migrating, EnsuresMaster;
    var u, master :|
      EnsuresMaster(Tier0, v, u, master) && Puts(Tier0, SINGLE_INSTANCE, plain, u, w, master, answer);
    SingleInstanceAtHand(k, a, v, u, master);
  }

  lemma Tier0MasterAfter(k: Keks, v: Vault, w: Vault)
    requires v.CachesHold() && HonestSlot(k, Tier0, v.slot0) && Migrates(v, w) && MigrationVerdict(v) == Done
    requires Master(Tier0) in v.files ==> MasterUnder(k, v.files, Master(Tier0)).Some?
    ensures Master(Tier0) in w.files ==> MasterUnder(k, w.files, Master(Tier0)).Some?
    ensures Master(Tier0) in v.files ==> At(w.files, Master(Tier0)) == At(v.files, Master(Tier0))
    ensures SI in v.files ==> MasterUnder(k, w.files, Master(Tier0)) == w.cache0
  {
  }

  lemma WiringKeepsMigrating(k: Keks, a: Files, v: Vault, w: Vault)
    requires LegacyInstall(k, a) && Migrating(k, a, v) && Migrates(v, w) && !v.migrated
    ensures Migrating(k, a, w)
    ensures Pending(k, a, v.files) && (SI in v.files ==> Reply(v.slot0).Some?) && Reply(v.slot1).Some? ==>
      Complete(k, a, w.files)
  {
    LegacyKeyUnder(a, k.kek1);
    if Pending(k, a, v.files) && MigrationVerdict(v) == Done {
      var b, c := v.files, w.files;
      forall ref
        ensures At(c, TierBlob(ref, Tier1)) == Tier1After(a, {}, ref)
      {
        assert At(c, TierBlob(ref, Tier1)) == Tier1After(b, {}, ref);
        assert ref != SINGLE_INSTANCE ==> At(b, LegacyBlob(ref)) == At(a, LegacyBlob(ref));
      }
      assert At(c, SI0) == At(b, SI0) || SI in b;
      assert At(b, SI) == At(a, SI) || SiMoved(k, a, b);
      Tier0MasterAfter(k, v, w);
      assert Complete(k, a, c);
    }
  }

  lemma StepKeepsMigrating(k: Keks, a: Files, op: Op, v: Vault, w: Vault, answer: Answer)
    requires LegacyInstall(k, a) && Migrating(k, a, v) && Waits(k, a, v, op) && CleanStep(op, v, w, answer)
    ensures Migrating(k, a, w)
  {
    match op
    case Wire(t, provider) =>
      if t == Tier1 && provider.Some? && !v.migrated {
        WiringKeepsMigrating(k, a, v.(slot1 := provider, cache1 := None), w);
      }
    case Get(t, ref) =>
      var master :| EnsuresMaster(t, v, w, master);
      if t == Tier0 {
        Tier0ReadKeepsMigrating(k, a, v, w, master);
      }
    case GetOrCreate(t, ref, generated) =>
      BootKeepsSingleInstance(k, a, generated, v, w, answer);
    case _ =>
  }

  /** A run: states[i] --ops[i]/answers[i]--> states[i+1], without failures. */
  ghost predicate CleanRun(ops: seq<Op>, states: seq<Vault>, answers: seq<Answer>) {
    && |states| == |ops| + 1 && |answers| == |ops|
    && forall i :: 0 <= i < |ops| ==> CleanStep(ops[i], states[i], states[i + 1], answers[i])
  }

  ghost predicate WaitingRun(k: Keks, a: Files, ops: seq<Op>, states: seq<Vault>)
    requires |states| == |ops| + 1
  {
    forall i :: 0 <= i < |ops| ==> Waits(k, a, states[i], ops[i])
  }

  lemma {:induction false} RunKeepsMigrating(k: Keks, a: Files, ops: seq<Op>, states: seq<Vault>,
                                             answers: seq<Answer>, i: nat)
    requires LegacyInstall(k, a) && CleanRun(ops, states, answers) && WaitingRun(k, a, ops, states)
    requires states[0] == Vault(a, None, None, None, None, false) && i < |states|
    ensures Migrating(k, a, states[i])
  {
    if i > 0 {
      RunKeepsMigrating(k, a, ops, states, answers, i - 1);
      StepKeepsMigrating(k, a, ops[i - 1], states[i - 1], states[i], answers[i - 1]);
    }
  }

  /** Every boot of such a run that gets or creates the single instance gets the legacy one, or fails. */
  lemma BootsGetLegacyKey(k: Keks, a: Files, ops: seq<Op>, states: seq<Vault>, answers: seq<Answer>, i: nat)
    requires LegacyInstall(k, a) && CleanRun(ops, states, answers) && WaitingRun(k, a, ops, states)
    requires states[0] == Vault(a, None, None, None, None, false)
    requires i < |ops| && ops[i].GetOrCreate?
    ensures SI in a
    ensures
      || answers[i] == Found(LegacyPlain(k, a, SINGLE_INSTANCE))
      || (answers[i].Failed? && states[i + 1] == states[i])
  {
    RunKeepsMigrating(k, a, ops, states, answers, i);
    assert CleanStep(ops[i], states[i], states[i + 1], answers[i]) && Waits(k, a, states[i], ops[i]);
    hide LegacyInstall, Migrating, GetsOrCreates, LegacyPlain;
    BootKeepsSingleInstance(k, a, ops[i].generated, states[i], states[i + 1], answers[i]);
  }

  /** The answer a legacy ref gives once `.master` is gone is a function of the legacy directory
      alone: the order of wiring, reading and retrying left no trace in it. */
  lemma OrderDoesNotMatter(k: Keks, a: Files, ops: seq<Op>, states: seq<Vault>, answers: seq<Answer>, i: nat,
                           ref: string, x: Vault, answer: Answer)
    requires LegacyInstall(k, a) && CleanRun(ops, states, answers) && WaitingRun(k, a, ops, states)
    requires states[0] == Vault(a, None, None, None, None, false)
    requires i < |states| && LegacyMaster !in states[i].files
    requires LegacyBlob(ref) in a && Accepted(ref)
    requires Reply(states[i].Slot(Home(ref))).Some?
    requires CleanStep(Get(Home(ref), ref), states[i], x, answer)
    ensures answer == Found(LegacyPlain(k, a, ref))
  {
    hide RefProblem, Classify;
    var v := states[i];
    RunKeepsMigrating(k, a, ops, states, answers, i);
    assert Complete(k, a, v.files) by { assert At(v.files, LegacyMaster) == None && At(a, LegacyMaster) != None; }
    GetAfterLoad(Home(ref), ref, v, x, answer, k.Of(Home(ref)), MasterUnder(k, v.files, Master(Home(ref))).value);
  }

  /** And of all legacy refs, whatever their file names: a run that has completed the migration reads
      every one of them back exactly when none ends in `.t0` or `.t1` and `keyPath` accepts them all. */
  lemma CompletedReadableExactly(k: Keks, a: Files, ops: seq<Op>, states: seq<Vault>, answers: seq<Answer>, i: nat)
    requires LegacyInstall(k, a) && CleanRun(ops, states, answers) && WaitingRun(k, a, ops, states)
    requires states[0] == Vault(a, None, None, None, None, false)
    requires i < |states| && LegacyMaster !in states[i].files
    ensures OldLayout(a) && MasterUnder(k, states[i].files, Master(Tier1)) == LegacyKey(a)
    ensures AllReadBack(a, states[i].files) <==> AllPlainRefs(a)
  {
    hide RefProblem, Classify, AllReadBack, AllPlainRefs;
    RunKeepsMigrating(k, a, ops, states, answers, i);
    LegacyKeyUnder(a, k.kek1);
    assert Complete(k, a, states[i].files) by {
      assert At(states[i].files, LegacyMaster) == None && At(a, LegacyMaster) != None;
    }
    ReadableExactly(a, states[i].files);
  }

  /** And completion is never out of reach: with a live tier-1 provider, and a live tier-0 one if there is
      a single instance to reseal, one more `SetKEKProvider` completes the migration from any state such
      a run can be in. */
  lemma LiveWiringCompletes(k: Keks, a: Files, ops: seq<Op>, states: seq<Vault>, answers: seq<Answer>, i: nat,
                            provider: Option<Provider>, w: Vault, answer: Answer)
    requires LegacyInstall(k, a) && CleanRun(ops, states, answers) && WaitingRun(k, a, ops, states)
    requires states[0] == Vault(a, None, None, None, None, false) && i < |states|
    requires SI in a ==> Reply(states[i].slot0).Some?
    requires HonestSlot(k, Tier1, provider) && Reply(provider).Some?
    requires CleanStep(Wire(Tier1, provider), states[i], w, answer)
    ensures LegacyMaster !in w.files && Complete(k, a, w.files)
  {
    var v := states[i];
    RunKeepsMigrating(k, a, ops, states, answers, i);
    var u := v.(slot1 := provider, cache1 := None);
    if !v.migrated {
      WiringKeepsMigrating(k, a, u, w);
    }
  }

  // ---------------------------------------------------------------- asking tier 1 too early

  /** While a legacy master waits to be migrated a tier-1 read is meant to fail closed. It does
      exactly when no tier-1 KEK is live; otherwise it writes a fresh tier-1 master beside `.master`. */
  lemma FailsClosedExactly(v: Vault, w: Vault, ref: string, answer: Answer)
    requires v.CachesHold() && LegacyMaster in v.files && Master(Tier1) !in v.files
    requires CleanStep(Get(Tier1, ref), v, w, answer)
    ensures Reply(v.slot1).None? ==> w == v && answer == Failed(NoProvider(Tier1))
    ensures Reply(v.slot1).Some? ==>
      LegacyMaster in w.files && Master(Tier1) in w.files && MigrationVerdict(w) == Refused
  {
    hide RefProblem;
    var master :| EnsuresMaster(Tier1, v, w, master) && answer == GetAnswer(w.files, Tier1, ref, master);
    if Reply(v.slot1).Some? {
      assert At(w.files, LegacyMaster) == At(v.files, LegacyMaster);
    }
  }

  /** A put does the same. */
  lemma PutFailsClosedExactly(v: Vault, w: Vault, ref: string, plain: Bytes, answer: Answer)
    requires v.CachesHold() && LegacyMaster in v.files && Master(Tier1) !in v.files
    requires CleanStep(Put(Tier1, ref, plain), v, w, answer)
    ensures Reply(v.slot1).None? ==> w == v && answer == Failed(NoProvider(Tier1))
    ensures Reply(v.slot1).Some? ==>
      LegacyMaster in w.files && Master(Tier1) in w.files && MigrationVerdict(w) == Refused
  {
    hide RefProblem;
    var u, master :| EnsuresMaster(Tier1, v, u, master) && Puts(Tier1, ref, plain, u, w, master, answer);
    if Reply(v.slot1).Some? {
      assert At(u.files, LegacyMaster) == At(v.files, LegacyMaster);
      assert At(w.files, LegacyMaster) == At(u.files, LegacyMaster);
      assert At(w.files, Master(Tier1)) == At(u.files, Master(Tier1));
    }
  }

  /** And two calls reach it from an old directory: with a single instance to reseal and no tier-0 KEK
      yet, an unlock defers the migration, and the first tier-1 read or write then forestalls it. */
  lemma EarlyUseForestalls(k: Keks, a: Files, provider: Option<Provider>, op: Op, v: Vault, w: Vault,
                           wired: Answer, answer: Answer)
    requires LegacyInstall(k, a) && SI in a && HonestSlot(k, Tier1, provider) && Reply(provider).Some?
    requires (op.Get? || op.Put?) && op.tier == Tier1
    requires CleanStep(Wire(Tier1, provider), Vault(a, None, None, None, None, false), v, wired)
    requires CleanStep(op, v, w, answer)
    ensures v.files == a
    ensures LegacyMaster in w.files && Master(Tier1) in w.files && MigrationVerdict(w) == Refused
  {
    assert Reply(None) == None;
    match op
    case Get(_, ref) => FailsClosedExactly(v, w, ref, answer);
    case Put(_, ref, plain) => PutFailsClosedExactly(v, w, ref, plain, answer);
  }

  /** And then no call, failure or restart ever completes the migration, unless the fresh master
      happened to be the legacy one: both files stay, and both keep their keys. */
  lemma {:induction false} RefusedForGood(h: seq<Moment>, i: nat, j: nat)
    requires Steps(h) && i <= j < |h|
    requires LegacyMaster in h[i].files && Master(Tier1) in h[i].files && !TakenOver(h[i].files)
    ensures At(h[j].files, LegacyMaster) == At(h[i].files, LegacyMaster)
    ensures At(h[j].files, Master(Tier1)) == At(h[i].files, Master(Tier1))
  {
    MasterWrittenOnce(h, i, j, Tier1);
    if i < j {
      RefusedForGood(h, i, j - 1);
      assert Step(h[j - 1].files, h[j]);
      assert SameBut(h[j - 1].files, h[j].files, h[j].file);
    }
  }
}
