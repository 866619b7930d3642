/** When the operations of go/keys/service.go succeed, told by what is on the disk, which KEKs are live
    and what is cached: of masters, of the tier-1 migration, and of the single instance at boot. */
module KeyExact {
  import opened Wrappers
  import opened KeyFiles
  import opened KeyDisk
  import opened KeySpec
  import opened KeyRuns
  import opened KeyOrder

  /** A wrapped master, 72 bytes on disk, that the KEK opens. */
  predicate Wraps(b: Blob, kek: Bytes) {
    b.Sealed? && b.key == kek && |b.plain| == 32
  }

  /** A raw legacy master, 32 bytes on disk. */
  predicate IsRaw(b: Blob) {
    b.Raw? && |b.bytes| == 32
  }

  predicate SealedUnder(b: Blob, key: Bytes) {
    b.Sealed? && b.key == key
  }

  /** A KEK counts exactly when it is 32 bytes long. */
  lemma UsableExactly(answer: Option<Bytes>)
    ensures Usable(answer) == if answer.Some? && |answer.value| == 32 then answer else None
  {
  }

  // ---------------------------------------------------------------- masters

  /** The state in which a tier's master can be had: it is cached; or its file is there and the KEK opens
      it; or there is none yet, and the KEK is live to wrap a new one, for which tier 0 needs a legacy
      master, if there is one, to be raw, and the single instance to open under it. */
  predicate MasterReady(t: Tier, files: Files, cached: bool, kek: Option<Bytes>) {
    || cached
    || (kek.Some? &&
        if Master(t) in files then Wraps(files[Master(t)], kek.value)
        else if t == Tier0 && LegacyMaster in files then
          && IsRaw(files[LegacyMaster])
          && (SI in files ==> SealedUnder(files[SI], files[LegacyMaster].bytes))
        else true)
  }

  /** ensureMaster succeeds exactly then; and which refusal means what. */
  lemma MasterExactly(t: Tier, v: Vault, w: Vault, r: Result<Bytes, KeyError>)
    requires EnsuresMaster(t, v, w, r)
    ensures var kek, cached, there := Reply(v.Slot(t)), v.Cache(t).Some?, Master(t) in v.files;
      var legacy := t == Tier0 && !there && LegacyMaster in v.files;
      && (r.Ok? <==> MasterReady(t, v.files, cached, kek))
      && (r == Fail(WrongLength) <==>
            && !cached
            && (|| (there && v.files[Master(t)].Length() != 72)
                || (legacy && v.files[LegacyMaster].Length() != 32 && v.files[LegacyMaster].Length() != 72)))
      && (r == Fail(NoLegacyUnlock) <==> !cached && legacy && v.files[LegacyMaster].Length() == 72)
      && (r == Fail(NoProvider(t)) <==>
            && !cached && kek.None?
            && (there ==> v.files[Master(t)].Length() == 72) && (legacy ==> v.files[LegacyMaster].Length() == 32))
      && (r.Fail? ==> r.error in {WrongLength, NoLegacyUnlock, NoProvider(t), Undecryptable})
      && (r.Fail? && r.error != Undecryptable ==> w == v)
  {
  }

  /** A raw legacy master gives tier 0 its own: the single instance comes along, the legacy master stays. */
  lemma Step0bMoves(v: Vault, w: Vault, r: Result<Bytes, KeyError>)
    requires EnsuresMaster(Tier0, v, w, r) && v.cache0.None? && Master(Tier0) !in v.files
    requires LegacyMaster in v.files && IsRaw(v.files[LegacyMaster]) && Reply(v.slot0).Some?
    requires SI in v.files && SealedUnder(v.files[SI], v.files[LegacyMaster].bytes)
    ensures r.Ok? && w.cache0 == Some(r.value) && SI !in w.files
    ensures At(w.files, LegacyMaster) == At(v.files, LegacyMaster)
    ensures Wraps(w.files[Master(Tier0)], Reply(v.slot0).value) && w.files[Master(Tier0)].plain == r.value
    ensures SealedUnder(w.files[SI0], r.value) && w.files[SI0].plain == v.files[SI].plain
  {
    assert At(w.files, LegacyMaster) == At(v.files, LegacyMaster);
  }

  // ---------------------------------------------------------------- the tier-1 migration

  /** The tier-1 KEK yields the legacy master: it is raw, or wrapped under that KEK. */
  predicate Yields(b: Blob, kek: Bytes, key: Bytes) {
    |key| == 32 && (b == Raw(key) || (Wraps(b, kek) && b.plain == key))
  }

  /** The guards before `.master-tier1` is written. The tier-0 KEK matters to the single instance only;
      a `.master-tier0` that is there, not cached, and not opened by a live KEK stops the migration. */
  ghost predicate GuardsPass(v: Vault) {
    var kek0, kek1 := Reply(v.slot0), Reply(v.slot1);
    && LegacyMaster in v.files && kek1.Some?
    && (exists key :: Yields(v.files[LegacyMaster], kek1.value, key))
    && (SI in v.files ==> kek0.Some?)
    && (Master(Tier0) in v.files && v.cache0.None? && kek0.Some? ==> Wraps(v.files[Master(Tier0)], kek0.value))
  }

  ghost predicate SingleInstanceOpens(v: Vault)
    requires LegacyMaster in v.files
  {
    SI in v.files ==>
      exists key :: Reply(v.slot1).Some? && Yields(v.files[LegacyMaster], Reply(v.slot1).value, key)
                    && SealedUnder(v.files[SI], key)
  }

  lemma YieldsExactly(a: Files, kek: Bytes, key: Bytes)
    requires LegacyMaster in a
    ensures Yields(a[LegacyMaster], kek, key) <==> LegacyMasterUnder(a, kek) == Some(key)
  {
  }

  /** What the migration does, without failures, to a directory that has a legacy master and no tier-1
      master. It completes exactly when the guards pass and the single instance, if there is one, opens;
      if only the latter fails it leaves both masters; and else it leaves everything as it was. */
  lemma MigratesExactly(v: Vault, w: Vault)
    requires Migrates(v, w) && LegacyMaster in v.files && Master(Tier1) !in v.files
    ensures LegacyMaster !in w.files <==> GuardsPass(v) && SingleInstanceOpens(v)
    ensures LegacyMaster in w.files && Master(Tier1) in w.files <==> GuardsPass(v) && !SingleInstanceOpens(v)
    ensures !GuardsPass(v) ==> w == v
    ensures w.migrated <==> v.migrated || LegacyMaster !in w.files
    ensures GuardsPass(v) ==>
      && Wraps(w.files[Master(Tier1)], Reply(v.slot1).value)
      && Yields(v.files[LegacyMaster], Reply(v.slot1).value, w.files[Master(Tier1)].plain)
      && w.cache1 == Some(w.files[Master(Tier1)].plain)
    ensures GuardsPass(v) && Master(Tier0) !in v.files && v.cache0.None? ==>
      && (Master(Tier0) in w.files <==> Reply(v.slot0).Some?)
      && (Reply(v.slot0).Some? ==>
            && Wraps(w.files[Master(Tier0)], Reply(v.slot0).value)
            && w.cache0 == Some(w.files[Master(Tier0)].plain))
  {
    if Reply(v.slot1).Some? {
      var kek1 := Reply(v.slot1).value;
      forall key
        ensures Yields(v.files[LegacyMaster], kek1, key) <==> LegacyMasterUnder(v.files, kek1) == Some(key)
      {
        YieldsExactly(v.files, kek1, key);
      }
      VerdictExactly(v);
      hide Yields, LegacyMasterUnder, BlobsMoved, GuardsPass, SingleInstanceOpens;
      if MigrationVerdict(v) == HalfDone {
        assert At(w.files, LegacyMaster) == At(v.files, LegacyMaster);
      }
      MastersAfter(v, w);
    }
  }

  /** The masters that a migration past its guards leaves. */
  lemma MastersAfter(v: Vault, w: Vault)
    requires Migrates(v, w) && LegacyMaster in v.files && Master(Tier1) !in v.files && Reply(v.slot1).Some?
    ensures MigrationVerdict(v) == Done || MigrationVerdict(v) == HalfDone ==>
      && Master(Tier1) in w.files && Wraps(w.files[Master(Tier1)], Reply(v.slot1).value)
      && Yields(v.files[LegacyMaster], Reply(v.slot1).value, w.files[Master(Tier1)].plain)
      && w.cache1 == Some(w.files[Master(Tier1)].plain)
      && (Master(Tier0) !in v.files && v.cache0.None? ==>
            && (Master(Tier0) in w.files <==> Reply(v.slot0).Some?)
            && (Reply(v.slot0).Some? ==>
                  && Wraps(w.files[Master(Tier0)], Reply(v.slot0).value)
                  && w.cache0 == Some(w.files[Master(Tier0)].plain)))
  {
    if LegacyMasterUnder(v.files, Reply(v.slot1).value).Some? {
      YieldsExactly(v.files, Reply(v.slot1).value, LegacyMasterUnder(v.files, Reply(v.slot1).value).value);
    }
    hide BlobsMoved;
  }

  lemma VerdictExactly(v: Vault)
    requires LegacyMaster in v.files && Master(Tier1) !in v.files && Reply(v.slot1).Some?
    ensures MigrationVerdict(v) == Deferred <==> !GuardsPass(v)
    ensures MigrationVerdict(v) == Done <==> GuardsPass(v) && SingleInstanceOpens(v)
    ensures MigrationVerdict(v) == Done || MigrationVerdict(v) == HalfDone || MigrationVerdict(v) == Deferred
  {
    var kek1 := Reply(v.slot1).value;
    forall key
      ensures Yields(v.files[LegacyMaster], kek1, key) <==> LegacyMasterUnder(v.files, kek1) == Some(key)
    {
      YieldsExactly(v.files, kek1, key);
    }
    hide Yields, LegacyMasterUnder;
    if LegacyMasterUnder(v.files, kek1).Some? {
      assert Yields(v.files[LegacyMaster], kek1, LegacyMasterUnder(v.files, kek1).value);
    }
  }

  /** The other directories: without a legacy master there is nothing to do but to set the latch, and with
      both masters nothing is done at all. */
  lemma NothingToMigrate(v: Vault, w: Vault)
    requires Migrates(v, w) && (LegacyMaster in v.files ==> Master(Tier1) in v.files)
    ensures w == if LegacyMaster in v.files then v else v.(migrated := true)
  {
  }

  /** So from any state of a waiting run a wiring with a live tier-1 KEK completes the migration exactly if
      it is complete already, or the single instance has moved or is not there, or the tier-0 KEK is live. */
  lemma WiringCompletesExactly(k: Keks, a: Files, v: Vault, w: Vault, provider: Option<Provider>, answer: Answer)
    requires LegacyInstall(k, a) && Migrating(k, a, v)
    requires HonestSlot(k, Tier1, provider) && Reply(provider).Some?
    requires CleanStep(Wire(Tier1, provider), v, w, answer)
    ensures LegacyMaster !in w.files <==> LegacyMaster !in v.files || SI !in v.files || Reply(v.slot0).Some?
    ensures LegacyMaster !in w.files ==> Complete(k, a, w.files)
    ensures LegacyMaster in w.files ==> w.files == v.files
  {
    var u := v.(slot1 := provider, cache1 := None);
    LegacyKeyUnder(a, k.kek1);
    if LegacyMaster in v.files {
      assert Pending(k, a, v.files) && At(v.files, LegacyMaster) == At(a, LegacyMaster);
      assert At(v.files, SI) == At(a, SI) || SI !in v.files;
      YieldsExactly(a, k.kek1, LegacyMasterUnder(a, k.kek1).value);
      MigratesExactly(u, w);
      WiringKeepsMigrating(k, a, u, w);
      SingleInstanceOf(k, a, u);
    } else {
      hide LegacyInstall;
      if !v.migrated {
        NothingToMigrate(u, w);
      }
    }
  }

  lemma SingleInstanceOf(k: Keks, a: Files, v: Vault)
    requires LegacyInstall(k, a) && Migrating(k, a, v) && LegacyMaster in v.files && Reply(v.slot1).Some?
    ensures SingleInstanceOpens(v)
    ensures GuardsPass(v) <==> (SI in v.files ==> Reply(v.slot0).Some?)
  {
    var key := LegacyMasterUnder(a, k.kek1).value;
    assert Pending(k, a, v.files) && At(v.files, LegacyMaster) == At(a, LegacyMaster);
    assert At(v.files, SI) == At(a, SI) || SI !in v.files;
    YieldsExactly(v.files, k.kek1, key);
  }

  // ---------------------------------------------------------------- the single instance at boot

  /** While a legacy single instance waits or has moved, tier 0 can be had exactly when a master is cached,
      or the tier-0 KEK is live and the legacy master is raw or tier 0 has a master already. */
  ghost predicate BootReady(a: Files, v: Vault)
    requires LegacyMaster in a
  {
    v.cache0.Some? || (Reply(v.slot0).Some? && (a[LegacyMaster].Raw? || Master(Tier0) in v.files))
  }

  /** And otherwise it is refused: for want of an unlock if the legacy master is wrapped and tier 0 has none,
      else for want of a tier-0 KEK. */
  function BootRefusal(a: Files, v: Vault): KeyError
    requires LegacyMaster in a
  {
    if Master(Tier0) !in v.files && a[LegacyMaster].Sealed? then NoLegacyUnlock else NoProvider(Tier0)
  }

  lemma BootMasterExactly(k: Keks, a: Files, v: Vault, w: Vault, r: Result<Bytes, KeyError>)
    requires LegacyInstall(k, a) && Migrating(k, a, v) && SI in a && EnsuresMaster(Tier0, v, w, r)
    ensures LegacyMaster in a
    ensures if BootReady(a, v) then r.Ok? else r == Fail(BootRefusal(a, v)) && w == v
  {
    LegacyKeyUnder(a, k.kek1);
    if LegacyMaster in v.files {
      assert At(v.files, LegacyMaster) == At(a, LegacyMaster);
    }
    assert SI in v.files ==> At(v.files, SI) == At(a, SI);
  }

  /** So a boot that gets the single instance. */
  lemma BootGetsExactly(k: Keks, a: Files, v: Vault, w: Vault, answer: Answer)
    requires LegacyInstall(k, a) && Migrating(k, a, v) && SI in a
    requires CleanStep(Get(Tier0, SINGLE_INSTANCE), v, w, answer)
    ensures LegacyMaster in a
    ensures if BootReady(a, v) then answer == Found(LegacyPlain(k, a, SINGLE_INSTANCE))
            else answer == Failed(BootRefusal(a, v)) && w == v
  {
    hide RefProblem, LegacyInstall, Migrating, EnsuresMaster, LegacyPlain;
    var master :| EnsuresMaster(Tier0, v, w, master) && answer == GetAnswer(w.files, Tier0, SINGLE_INSTANCE, master);
    BootMasterExactly(k, a, v, w, master);
    SingleInstanceAtHand(k, a, v, w, master);
    hide BootReady, BootRefusal;
  }

  /** And one that gets or creates it, as every start of the service does. */
  lemma BootGetsOrCreatesExactly(k: Keks, a: Files, generated: Option<Bytes>, v: Vault, w: Vault, answer: Answer)
    requires LegacyInstall(k, a) && Migrating(k, a, v) && SI in a
    requires CleanStep(GetOrCreate(Tier0, SINGLE_INSTANCE, generated), v, w, answer)
    ensures LegacyMaster in a
    ensures if BootReady(a, v) then answer == Found(LegacyPlain(k, a, SINGLE_INSTANCE))
            else w == v && answer == Failed(if generated.Some? then BootRefusal(a, v) else GenerateFailed)
  {
    hide RefProblem, LegacyInstall, Migrating, LegacyPlain, Gets, Stores, BootReady, BootRefusal;
    var u, first :| Gets(Tier0, SINGLE_INSTANCE, v, u, first) &&
      if first.Found? then w == u && answer == first
      else exists u', second ::
        Gets(Tier0, SINGLE_INSTANCE, u, u', second) &&
        Creates(Tier0, SINGLE_INSTANCE, generated, u', w, second, answer);
    BootGetsExactly(k, a, v, u, first);
    if !first.Found? {
      var u', second :|
        Gets(Tier0, SINGLE_INSTANCE, u, u', second) &&
        Creates(Tier0, SINGLE_INSTANCE, generated, u', w, second, answer);
      BootGetsExactly(k, a, u, u', second);
      if generated.Some? {
        var stored :| Stores(Tier0, SINGLE_INSTANCE, generated.value, u', w, stored)
          && answer == if stored == Acknowledged then Found(generated.value) else stored;
        BootStoresNothing(k, a, generated.value, u', w, stored);
      }
    }
  }

  lemma BootStoresNothing(k: Keks, a: Files, plain: Bytes, v: Vault, w: Vault, answer: Answer)
    requires LegacyInstall(k, a) && Migrating(k, a, v) && SI in a && LegacyMaster in a && !BootReady(a, v)
    requires Stores(Tier0, SINGLE_INSTANCE, plain, v, w, answer)
    ensures w == v && answer == Failed(BootRefusal(a, v))
  {
    hide RefProblem, LegacyInstall, Migrating, EnsuresMaster;
    var u, master :|
      EnsuresMaster(Tier0, v, u, master) && Puts(Tier0, SINGLE_INSTANCE, plain, u, w, master, answer);
    BootMasterExactly(k, a, v, u, master);
  }

  /** In every waiting run over an old directory with a single instance. */
  lemma BootsExactly(k: Keks, a: Files, ops: seq<Op>, states: seq<Vault>, answers: seq<Answer>, i: nat)
    requires LegacyInstall(k, a) && CleanRun(ops, states, answers) && WaitingRun(k, a, ops, states)
    requires states[0] == Vault(a, None, None, None, None, false) && SI in a && i < |ops|
    requires ops[i] == Get(Tier0, SINGLE_INSTANCE) || ops[i].GetOrCreate?
    ensures LegacyMaster in a
    ensures if BootReady(a, states[i]) then answers[i] == Found(LegacyPlain(k, a, SINGLE_INSTANCE))
            else
              && states[i + 1] == states[i]
              && answers[i] == Failed(if ops[i].GetOrCreate? && ops[i].generated.None? then GenerateFailed
                                      else BootRefusal(a, states[i]))
  {
    RunKeepsMigrating(k, a, ops, states, answers, i);
    assert CleanStep(ops[i], states[i], states[i + 1], answers[i]) && Waits(k, a, states[i], ops[i]);
    hide LegacyInstall, Migrating, CleanStep, LegacyPlain, BootReady, BootRefusal;
    if ops[i].Get? {
      BootGetsExactly(k, a, states[i], states[i + 1], answers[i]);
    } else {
      BootGetsOrCreatesExactly(k, a, ops[i].generated, states[i], states[i + 1], answers[i]);
    }
  }

  // ---------------------------------------------------------------- what is forgotten

  /** After a shutdown or a restart a master is had only through a live KEK. */
  lemma ForgottenWithoutKek(op: Op, t: Tier, ref: string, v: Vault, u: Vault, w: Vault, done: Answer, answer: Answer)
    requires (op.Shutdown? || op.Restart?) && CleanStep(op, v, u, done) && CleanStep(Get(t, ref), u, w, answer)
    requires op.Restart? || Reply(v.Slot(t)).None?
    ensures answer.Failed? && w == u && u.files == v.files
    ensures u.cache0.None? && u.cache1.None?
  {
    hide RefProblem;
    assert Reply(None) == None;
    var master :| EnsuresMaster(t, u, w, master) && answer == GetAnswer(w.files, t, ref, master);
    MasterExactly(t, u, w, master);
  }
}
