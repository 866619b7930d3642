/** What holds of the key store over whole runs, however operations, failures, stops and restarts
    are interleaved. A run is read off the disk's history, or off the states between operations. */
module KeyRuns {
  import opened Wrappers
  import opened KeyFiles
  import opened KeyDisk
  import opened KeySpec

  /** The KEKs of an installation. */
  datatype Keks = Keks(kek0: Bytes, kek1: Bytes) {
    function Of(t: Tier): Bytes {
      if t == Tier0 then kek0 else kek1
    }
  }

  // ---------------------------------------------------------------- masters are written once

  /** Every change after the first moment is one the service makes. */
  ghost predicate Steps(h: seq<Moment>) {
    h != [] && forall i :: 0 < i < |h| ==> Step(h[i - 1].files, h[i])
  }

  /** A `.master-tierN` file once written is never rewritten nor removed. */
  lemma {:induction false} MasterWrittenOnce(h: seq<Moment>, i: nat, j: nat, t: Tier)
    requires Steps(h) && i <= j < |h| && Master(t) in h[i].files
    ensures At(h[j].files, Master(t)) == At(h[i].files, Master(t))
  {
    if i < j {
      MasterWrittenOnce(h, i, j - 1, t);
      assert Step(h[j - 1].files, h[j]);
      assert SameBut(h[j - 1].files, h[j].files, h[j].file);
    }
  }

  /** So two successful `ensureMaster` calls, at any two moments of a directory's life, agree. */
  lemma MastersAgree(h: seq<Moment>, i: nat, j: nat, t: Tier, m: Bytes, m': Bytes)
    requires Steps(h) && i <= j < |h|
    requires PlainOf(At(h[i].files, Master(t))) == Some(m)
    requires PlainOf(At(h[j].files, Master(t))) == Some(m')
    ensures m == m'
  {
    MasterWrittenOnce(h, i, j, t);
  }

  /** A legacy master never comes back, nor does a legacy blob change. */
  lemma {:induction false} LegacyOnlyGoes(h: seq<Moment>, i: nat, j: nat, f: File)
    requires Steps(h) && i <= j < |h| && (f == LegacyMaster || f.LegacyBlob?)
    ensures f in h[j].files ==> At(h[j].files, f) == At(h[i].files, f)
  {
    if i < j {
      LegacyOnlyGoes(h, i, j - 1, f);
      assert Step(h[j - 1].files, h[j]);
      assert SameBut(h[j - 1].files, h[j].files, h[j].file);
    }
  }

  /** Where there is no legacy master, every blob on disk has a ref that `keyPath` accepts, whatever
      failed and whenever the run stopped. */
  lemma {:induction false} OnlyAcceptedRefs(h: seq<Moment>, i: nat, f: File)
    requires Steps(h) && i < |h| && LegacyMaster !in h[0].files
    requires forall g :: g in h[0].files && g.TierBlob? ==> Accepted(g.ref)
    requires f in h[i].files && f.TierBlob?
    ensures Accepted(f.ref)
  {
    hide RefProblem;
    if i > 0 {
      LegacyOnlyGoes(h, 0, i - 1, LegacyMaster);
      assert Step(h[i - 1].files, h[i]);
      if f != h[i].file {
        assert At(h[i].files, f) == At(h[i - 1].files, f);
        OnlyAcceptedRefs(h, i - 1, f);
      }
    }
  }

  /** So in every state of such a run a tier lists a ref exactly when asking for it says it is there. */
  lemma ListedExactlyWhenHas(h: seq<Moment>, i: nat, v: Vault, t: Tier, ref: string, listed: set<string>, has: Answer)
    requires Steps(h) && i < |h| && LegacyMaster !in h[0].files
    requires forall g :: g in h[0].files && g.TierBlob? ==> Accepted(g.ref)
    requires v.files == h[i].files
    requires CleanStep(List(t), v, v, Refs(listed)) && CleanStep(Has(t, ref), v, v, has)
    ensures ref in listed <==> has == Present(true)
  {
    hide RefProblem;
    RefsMember(v.files, ref, t);
    if TierBlob(ref, t) in v.files {
      OnlyAcceptedRefs(h, i, TierBlob(ref, t));
    }
  }

  // ---------------------------------------------------------------- no legacy secret is lost

  /** The master a file holds, under the installation's KEKs. */
  function MasterUnder(k: Keks, a: Files, f: File): Option<Bytes> {
    if f == LegacyMaster then LegacyMasterUnder(a, k.kek1)
    else if f.Master? && f in a then Unwrap(k.Of(f.tier), a[f])
    else None
  }

  predicate OpensUnder(k: Keks, a: Files, blob: File, master: File, plain: Bytes) {
    MasterUnder(k, a, master).Some? && blob in a && Open(MasterUnder(k, a, master).value, a[blob]) == Some(plain)
  }

  /** The tier a legacy ref belongs to, and its file there. */
  function Home(ref: string): Tier {
    if ref == SINGLE_INSTANCE then Tier0 else Tier1
  }

  function HomeFile(ref: string): File {
    TierBlob(ref, Home(ref))
  }

  /** The secret is on disk with a master file that opens it: where the old layout has it while
      `.master` is there, else or also where the new layout has it. */
  predicate Recoverable(k: Keks, a: Files, ref: string, plain: Bytes) {
    || OpensUnder(k, a, LegacyBlob(ref), LegacyMaster, plain)
    || OpensUnder(k, a, HomeFile(ref), Master(Home(ref)), plain)
  }

  /** A legacy installation under fixed KEKs; masters of a tier may be there already. */
  predicate Install(k: Keks, a: Files) {
    && LegacyMasterUnder(a, k.kek1).Some?
    && (Master(Tier0) in a ==> Unwrap(k.kek0, a[Master(Tier0)]).Some?)
    && (Master(Tier1) in a ==> Unwrap(k.kek1, a[Master(Tier1)]).Some?)
  }

  /** Only the installation's own KEKs ever seal a master. */
  predicate HonestKek(k: Keks, m: Moment) {
    m.file.Master? && m.file in m.files && m.files[m.file].Sealed? ==> m.files[m.file].key == k.Of(m.file.tier)
  }

  ghost predicate HonestSteps(k: Keks, h: seq<Moment>) {
    Steps(h) && forall i :: 0 < i < |h| ==> HonestKek(k, h[i])
  }

  /** A caller's change to the file where a legacy secret belongs does no harm while the old layout
      still has the secret, as when a boot stores a new single instance beside it. */
  predicate Spares(a: Files, m: Moment, ref: string) {
    m.author == Caller && m.file == HomeFile(ref) ==> LegacyMaster in a && LegacyBlob(ref) in a
  }

  /** Up to moment i no caller has done any. */
  ghost predicate Spared(h: seq<Moment>, ref: string, i: nat)
    requires i < |h|
  {
    forall j :: 0 < j <= i ==> Spares(h[j - 1].files, h[j], ref)
  }

  /** What every change keeps of one legacy secret: the legacy master or a tier-1 master with its
      key, and the blob where it was or, sealed under a stored master, where it belongs. */
  ghost predicate Kept(k: Keks, a0: Files, a: Files, ref: string, plain: Bytes)
    requires LegacyMasterUnder(a0, k.kek1).Some?
  {
    var m := LegacyMasterUnder(a0, k.kek1).value;
    && (forall t :: Master(t) in a ==> MasterUnder(k, a, Master(t)).Some?)
    && (LegacyMaster in a ==> At(a, LegacyMaster) == At(a0, LegacyMaster))
    && (LegacyMaster !in a ==>
          MasterUnder(k, a, Master(Tier1)) == Some(m) && OpensUnder(k, a, HomeFile(ref), Master(Home(ref)), plain))
    && (LegacyBlob(ref) in a ==> At(a, LegacyBlob(ref)) == At(a0, LegacyBlob(ref)))
    && (LegacyBlob(ref) !in a ==>
          if ref == SINGLE_INSTANCE then OpensUnder(k, a, SI0, Master(Tier0), plain)
          else At(a, HomeFile(ref)) == At(a0, LegacyBlob(ref)) && MasterUnder(k, a, Master(Tier1)) == Some(m))
  }

  lemma LegacyKeyUnder(a: Files, kek: Bytes)
    ensures LegacyMasterUnder(a, kek).Some? ==> LegacyKey(a) == LegacyMasterUnder(a, kek)
  {
  }

  lemma KeptByStep(k: Keks, a0: Files, a: Files, m: Moment, ref: string, plain: Bytes)
    requires LegacyMasterUnder(a0, k.kek1).Some? && LegacyBlob(ref) in a0
    requires Open(LegacyMasterUnder(a0, k.kek1).value, a0[LegacyBlob(ref)]) == Some(plain)
    requires Kept(k, a0, a, ref, plain) && Step(a, m) && HonestKek(k, m)
    requires Spares(a, m, ref)
    ensures Kept(k, a0, m.files, ref, plain)
  {
    var b := m.files;
    LegacyKeyUnder(a0, k.kek1);
    assert forall f :: f != m.file ==> At(b, f) == At(a, f);
    assert At(b, LegacyMaster) == At(a, LegacyMaster) || m.file == LegacyMaster;
    assert At(b, Master(Tier0)) == At(a, Master(Tier0)) || m.file == Master(Tier0);
    assert At(b, Master(Tier1)) == At(a, Master(Tier1)) || m.file == Master(Tier1);
    assert At(b, LegacyBlob(ref)) == At(a, LegacyBlob(ref)) || m.file == LegacyBlob(ref);
    assert At(b, HomeFile(ref)) == At(a, HomeFile(ref)) || m.file == HomeFile(ref);
  }

  lemma KeptIsRecoverable(k: Keks, a0: Files, a: Files, ref: string, plain: Bytes)
    requires LegacyMasterUnder(a0, k.kek1).Some? && LegacyBlob(ref) in a0
    requires Open(LegacyMasterUnder(a0, k.kek1).value, a0[LegacyBlob(ref)]) == Some(plain)
    requires Kept(k, a0, a, ref, plain)
    ensures Recoverable(k, a, ref, plain)
  {
  }

  /** Crash safety: from a legacy installation, after every single write or removal of any run,
      each legacy secret can still be recovered that no caller has overwritten or deleted in the only
      place where it was. */
  lemma {:induction false} NoSecretLost(k: Keks, h: seq<Moment>, ref: string, plain: Bytes, i: nat)
    requires HonestSteps(k, h) && i < |h| && Spared(h, ref, i)
    requires Install(k, h[0].files)
    requires OpensUnder(k, h[0].files, LegacyBlob(ref), LegacyMaster, plain)
    ensures Kept(k, h[0].files, h[i].files, ref, plain)
    ensures Recoverable(k, h[i].files, ref, plain)
  {
    if i > 0 {
      NoSecretLost(k, h, ref, plain, i - 1);
      KeptByStep(k, h[0].files, h[i - 1].files, h[i], ref, plain);
    } else {
      forall t | Master(t) in h[0].files
        ensures MasterUnder(k, h[0].files, Master(t)).Some?
      {
        assert t == Tier0 || t == Tier1;
      }
    }
    KeptIsRecoverable(k, h[0].files, h[i].files, ref, plain);
  }

  /** The condition on callers is needed: once one of them does harm, the secret can be recovered
      exactly if what now lies where it belongs still opens to it. */
  lemma HarmedExactly(k: Keks, a: Files, m: Moment, ref: string, plain: Bytes)
    requires SameBut(a, m.files, m.file) && !Spares(a, m, ref)
    ensures Recoverable(k, m.files, ref, plain) <==>
      OpensUnder(k, m.files, HomeFile(ref), Master(Home(ref)), plain)
  {
    assert At(m.files, LegacyMaster) == At(a, LegacyMaster) && At(m.files, LegacyBlob(ref)) == At(a, LegacyBlob(ref));
  }

  // ---------------------------------------------------------------- what the migration leaves

  /** With everything steady and no failure, `.master-tier1` is left beside `.master` exactly when
      the guards pass and there is a single-instance blob that the legacy master does not open. */
  lemma HalfStateExactly(v: Vault, w: Vault)
    requires Migrates(v, w) && LegacyMaster in v.files && Master(Tier1) !in v.files
    ensures Master(Tier1) in w.files && LegacyMaster in w.files <==>
      && Reply(v.slot1).Some? && LegacyMasterUnder(v.files, Reply(v.slot1).value).Some?
      && Reply(v.slot0).Some? && Tier0AtHand(v)
      && SI in v.files && Open(LegacyMasterUnder(v.files, Reply(v.slot1).value).value, v.files[SI]).None?
  {
    if MigrationVerdict(v) == HalfDone {
      assert At(w.files, LegacyMaster) == At(v.files, LegacyMaster);
    }
  }

  function KeyOf(n: Byte): (key: Bytes)
    ensures |key| == KEY_SIZE && forall i :: 0 <= i < KEY_SIZE ==> key[i] == n
  {
    seq(KEY_SIZE, _ => n)
  }

  lemma ConstantReply(kek: Bytes)
    requires |kek| == KEY_SIZE
    ensures Reply(Some({Some(kek)})) == Some(kek)
  {
    assert Some(kek) in {Some(kek)};
  }

  /** Such a directory: a raw legacy master, and a single instance sealed under some other key. With both
      KEKs live the migration leaves both masters in it. */
  lemma HalfStateReached(w: Vault)
    requires var a := map[LegacyMaster := Raw(KeyOf(0)), SI := Sealed(KeyOf(9), 0, [])];
      Migrates(Vault(a, None, None, Some({Some(KeyOf(1))}), Some({Some(KeyOf(2))}), false), w)
    ensures Master(Tier1) in w.files && LegacyMaster in w.files
  {
    var a := map[LegacyMaster := Raw(KeyOf(0)), SI := Sealed(KeyOf(9), 0, [])];
    var v := Vault(a, None, None, Some({Some(KeyOf(1))}), Some({Some(KeyOf(2))}), false);
    ConstantReply(KeyOf(1));
    ConstantReply(KeyOf(2));
    assert KeyOf(9)[0] == 9 && KeyOf(0)[0] == 0;
    assert LegacyMasterUnder(a, KeyOf(2)) == Some(KeyOf(0)) && Open(KeyOf(0), a[SI]).None?;
    HalfStateExactly(v, w);
  }

  /** So a well-formed single-instance blob means no half-state: either no `.master-tier1` is
      written at all, or the call ends with `.master` gone and the latch set. */
  lemma NoHalfState(v: Vault, w: Vault)
    requires Migrates(v, w) && LegacyMaster in v.files && Master(Tier1) !in v.files
    requires SI in v.files ==> LegacyKey(v.files).Some? && Open(LegacyKey(v.files).value, v.files[SI]).Some?
    ensures (w == v && Master(Tier1) !in w.files)
         || (Master(Tier1) in w.files && LegacyMaster !in w.files && w.migrated)
  {
    if Reply(v.slot1).Some? {
      LegacyKeyUnder(v.files, Reply(v.slot1).value);
    }
  }

  /** What a Get answers does not depend on anything but the directory, once the tier's KEK is live. */
  lemma GetAfterLoad(t: Tier, ref: string, v: Vault, w: Vault, answer: Answer, kek: Bytes, m: Bytes)
    requires v.CachesHold() && Reply(v.Slot(t)) == Some(kek)
    requires Master(t) in v.files && Unwrap(kek, v.files[Master(t)]) == Some(m)
    requires CleanStep(Get(t, ref), v, w, answer)
    ensures w.files == v.files && answer == GetAnswer(v.files, t, ref, Ok(m))
  {
    var master :| EnsuresMaster(t, v, w, master) && answer == GetAnswer(w.files, t, ref, master);
    assert master == Ok(m);
  }

  /** Whatever failed or stopped on the way: once `.master` is gone, every legacy secret that no
      caller has harmed answers in its tier as soon as the tier's KEK is live. */
  lemma RetiredMeansReadable(k: Keks, h: seq<Moment>, ref: string, plain: Bytes, i: nat,
                             v: Vault, w: Vault, answer: Answer)
    requires HonestSteps(k, h) && i < |h| && Spared(h, ref, i)
    requires Install(k, h[0].files) && OpensUnder(k, h[0].files, LegacyBlob(ref), LegacyMaster, plain)
    requires LegacyMaster !in h[i].files && Accepted(ref)
    requires v.files == h[i].files && v.CachesHold() && Reply(v.Slot(Home(ref))) == Some(k.Of(Home(ref)))
    requires CleanStep(Get(Home(ref), ref), v, w, answer)
    ensures answer == Found(plain)
  {
    hide RefProblem;
    NoSecretLost(k, h, ref, plain, i);
    assert OpensUnder(k, v.files, HomeFile(ref), Master(Home(ref)), plain);
    GetAfterLoad(Home(ref), ref, v, w, answer, k.Of(Home(ref)), MasterUnder(k, v.files, Master(Home(ref))).value);
  }

  /** The files that a completed migration of `a` writes or removes. */
  predicate ReachedByMigration(a: Files, f: File) {
    match f
    case LegacyMaster => true
    case Master(t) => f !in a
    case LegacyBlob(_) => f in a
    case TierBlob(ref, t) =>
      LegacyBlob(ref) in a && t == if ref == SINGLE_INSTANCE then Tier0 else Tier1
    case Other(_) => false
  }

  lemma GoneMeansDone(v: Vault, w: Vault)
    requires Migrates(v, w) && LegacyMaster in v.files && LegacyMaster !in w.files
    ensures MigrationVerdict(v) == Done
  {
    assert MigrationVerdict(v) == HalfDone ==> At(w.files, LegacyMaster) == At(v.files, LegacyMaster);
  }

  lemma MigrationReachesOnly(v: Vault, w: Vault, f: File)
    requires Migrates(v, w) && MigrationVerdict(v) == Done && !ReachedByMigration(v.files, f)
    ensures At(w.files, f) == At(v.files, f)
  {
    hide LegacyKey, LegacyMasterUnder, Reseals;
    match f
    case LegacyMaster =>
    case Master(t) =>
      assert t == Tier0 || t == Tier1;
      assert At(v.files, Master(Tier1)) == None;
    case LegacyBlob(ref) =>
      if ref != SINGLE_INSTANCE {
        assert At(w.files, f) == None;
      }
    case TierBlob(ref, t) =>
      if t == Tier1 {
        assert At(w.files, f) == Tier1After(v.files, {}, ref);
      }
    case Other(_) =>
  }

  /** A migration that its guards let through, with no failure: the legacy blob of every ref that
      `keyPath` accepts answers in tier 1 as it did before, the single instance's in tier 0. */
  lemma MigrationPreservesContents(v: Vault, w: Vault, ref: string, plain: Bytes, x: Vault, answer: Answer)
    requires v.CachesHold() && Migrates(v, w) && LegacyMaster in v.files && LegacyMaster !in w.files
    requires LegacyBlob(ref) in v.files && Accepted(ref) && LegacyKey(v.files).Some?
    requires Open(LegacyKey(v.files).value, v.files[LegacyBlob(ref)]) == Some(plain)
    requires CleanStep(Get(Home(ref), ref), w, x, answer)
    ensures answer == Found(plain) && x.files == w.files
    ensures LegacyBlob(ref) !in w.files && w.migrated
    ensures forall f: File :: !ReachedByMigration(v.files, f) ==> At(w.files, f) == At(v.files, f)
    ensures Unwrap(Reply(v.slot1).value, w.files[Master(Tier1)]) == LegacyKey(v.files)
  {
    GoneMeansDone(v, w);
    LegacyKeyUnder(v.files, Reply(v.slot1).value);
    forall f | !ReachedByMigration(v.files, f)
      ensures At(w.files, f) == At(v.files, f)
    {
      MigrationReachesOnly(v, w, f);
    }
    hide ReachedByMigration, RefProblem;
  }

  /** The refs whose legacy file name the new scheme reads as a tier's. */
  predicate Marked(ref: string) {
    HasSuffix(ref, TierMark(Tier0)) || HasSuffix(ref, TierMark(Tier1))
  }

  /** The file where the unpartitioned store kept a ref. */
  function LegacyFile(ref: string): File {
    ClassifyBlob(ref)
  }

  lemma LegacyFileByName(ref: string)
    ensures LegacyFile(ref) == Classify(ref + AEAD)
    ensures !Marked(ref) ==> LegacyFile(ref) == LegacyBlob(ref)
  {
    MastersAreNotBlobs();
    SuffixAppended(ref, AEAD);
    hide TierMark, MasterName, LEGACY_MASTER, AEAD;
  }

  /** In the directory `b` a legacy ref answers in tier 1 what the legacy directory `a` held. */
  ghost predicate ReadsBack(a: Files, b: Files, ref: string)
    requires LegacyKey(a).Some? && LegacyFile(ref) in a
  {
    var m := LegacyKey(a).value;
    Open(m, a[LegacyFile(ref)]).Some?
    && GetAnswer(b, Tier1, ref, Ok(m)) == Found(Open(m, a[LegacyFile(ref)]).value)
  }

  /** From a marked ref, one that is marked too and whose tier-1 file nothing will ever fill. */
  lemma {:induction false} DeadEnd(a: Files, ref: string, left: set<File>) returns (dead: string)
    requires Marked(ref) && LegacyFile(ref) in a
    requires forall f :: f in a && f.TierBlob? && |f.ref| >= |ref| ==> f in left
    ensures Marked(dead) && LegacyFile(dead) in a && TierBlob(dead, Tier1) !in a
    decreases left
  {
    if TierBlob(ref, Tier1) in a {
      var longer := ref + TierMark(Tier1);
      SuffixAppended(ref, TierMark(Tier1));
      TierMarksDiffer(ref);
      assert LegacyFile(longer) == TierBlob(ref, Tier1);
      dead := DeadEnd(a, longer, left - {TierBlob(ref, Tier1)});
    } else {
      dead := ref;
    }
  }

  /** A directory of the old layout: its master, and blobs under names of any kind, all of which the
      master opens. */
  ghost predicate OldLayout(a: Files) {
    && LegacyKey(a).Some?
    && (forall f :: f in a ==> Proper(f))
    && (forall f :: f in a && (f.LegacyBlob? || f.TierBlob?) ==> Open(LegacyKey(a).value, a[f]).Some?)
  }

  ghost predicate AllReadBack(a: Files, b: Files)
    requires OldLayout(a)
  {
    forall ref :: ref != SINGLE_INSTANCE && LegacyFile(ref) in a ==> ReadsBack(a, b, ref)
  }

  /** No legacy ref has a file name that the new layout reads otherwise, or would refuse. */
  ghost predicate AllPlainRefs(a: Files) {
    forall ref :: ref != SINGLE_INSTANCE && LegacyFile(ref) in a ==> Accepted(ref) && !Marked(ref)
  }

  /** Step 3f reads `REF.tN.aead` as already moved, and `keyPath` has come to reserve `.tN.aead`:
      once every legacy blob has moved, all legacy refs are readable exactly when no legacy ref ends
      in `.t0` or `.t1` and `keyPath` accepts them all. */
  lemma ReadableExactly(a: Files, b: Files)
    requires OldLayout(a) && forall ref :: At(b, TierBlob(ref, Tier1)) == Tier1After(a, {}, ref)
    ensures AllReadBack(a, b) <==> AllPlainRefs(a)
  {
    if AllPlainRefs(a) {
      hide RefProblem, Marked, LegacyFile, LegacyKey;
      forall ref | ref != SINGLE_INSTANCE && LegacyFile(ref) in a
        ensures ReadsBack(a, b, ref)
      {
        UnmarkedReadsBack(a, b, ref);
      }
    } else {
      var ref :| ref != SINGLE_INSTANCE && LegacyFile(ref) in a && !(Accepted(ref) && !Marked(ref));
      hide RefProblem, Marked, LegacyFile, LegacyKey, ReadsBack, HasSuffix;
      if !Accepted(ref) {
        RejectedDoesNotReadBack(a, b, ref);
      } else {
        var dead := DeadEnd(a, ref, a.Keys);
        SingleInstanceUnmarked();
        DeadEndDoesNotReadBack(a, b, dead);
      }
    }
  }

  /** So for a migration that completes. The directory `v` it starts from is the old one, but that
      tier 0, with the single instance, may have moved by itself before. */
  lemma MigrationReadableExactly(a: Files, v: Vault, w: Vault)
    requires OldLayout(a) && Migrates(v, w) && LegacyMaster !in w.files
    requires At(v.files, LegacyMaster) == At(a, LegacyMaster)
    requires forall f: File :: (f.LegacyBlob? || f.TierBlob?) && f != SI && f != SI0 ==> At(v.files, f) == At(a, f)
    ensures AllReadBack(a, w.files) <==> AllPlainRefs(a)
  {
    assert At(v.files, LegacyMaster) != None;
    GoneMeansDone(v, w);
    assert BlobsMoved(v.files, w.files, {});
    hide Migrates, OldLayout, AllReadBack, AllPlainRefs, MigrationVerdict;
    forall ref
      ensures At(w.files, TierBlob(ref, Tier1)) == Tier1After(a, {}, ref)
    {
      assert At(w.files, TierBlob(ref, Tier1)) == Tier1After(v.files, {}, ref);
      assert At(v.files, TierBlob(ref, Tier1)) == At(a, TierBlob(ref, Tier1));
      assert ref != SINGLE_INSTANCE ==> At(v.files, LegacyBlob(ref)) == At(a, LegacyBlob(ref));
    }
    ReadableExactly(a, w.files);
  }

  /** A raw legacy master, and the legacy ref "x.t1" in `x.t1.aead`. */
  function StrayInstall(): Files {
    map[LegacyMaster := Raw(KeyOf(0)), TierBlob("x", Tier1) := Sealed(KeyOf(0), 0, [7])]
  }

  lemma StrayFiles()
    ensures LegacyFile("x.t1") == TierBlob("x", Tier1)
    ensures LegacyMasterUnder(StrayInstall(), KeyOf(2)) == Some(KeyOf(0)) && SI !in StrayInstall()
    ensures TierBlob("x.t1", Tier1) !in StrayInstall() && forall ref :: LegacyBlob(ref) !in StrayInstall()
    ensures StrayInstall()[TierBlob("x", Tier1)] == Sealed(KeyOf(0), 0, [7])
    ensures forall t :: Master(t) !in StrayInstall()
  {
    assert "x.t1" == "x" + TierMark(Tier1);
    SuffixAppended("x", TierMark(Tier1));
    TierMarksDiffer("x");
    hide HasSuffix;
    assert |"x.t1"| != |"x"|;
  }

  /** In such a directory the migration completes; "x.t1" is gone from tier 1, and its secret is there
      as "x". */
  lemma MarkedRefStrays(w: Vault)
    requires Migrates(Vault(StrayInstall(), None, None, None, Some({Some(KeyOf(2))}), false), w)
    ensures LegacyFile("x.t1") in StrayInstall()
    ensures LegacyMaster !in w.files && PlainOf(At(w.files, Master(Tier1))) == Some(KeyOf(0))
    ensures GetAnswer(w.files, Tier1, "x.t1", Ok(KeyOf(0))) == Failed(ReadFailed)
    ensures GetAnswer(w.files, Tier1, "x", Ok(KeyOf(0))) == Found([7])
  {
    var a, v := StrayInstall(), Vault(StrayInstall(), None, None, None, Some({Some(KeyOf(2))}), false);
    StrayFiles();
    ConstantReply(KeyOf(2));
    PlainNamesAccepted();
    assert MigrationVerdict(v) == Done && BlobsMoved(a, w.files, {}) && At(w.files, LegacyMaster) == None
           && SealsUnder(At(w.files, Master(Tier1)), KeyOf(2), KeyOf(0)) by {
      hide RefProblem, LegacyFile, StrayInstall, LegacyMasterUnder, KeyOf, BlobsMoved;
    }
    hide Migrates, RefProblem, LegacyFile, StrayInstall, LegacyMasterUnder, KeyOf, MigrationVerdict;
    assert At(w.files, TierBlob("x.t1", Tier1)) == Tier1After(a, {}, "x.t1");
    assert At(w.files, TierBlob("x", Tier1)) == Tier1After(a, {}, "x");
  }

  lemma PlainNamesAccepted()
    ensures Accepted("x") && Accepted("x.t1")
  {
    LastOfSuffix("x", AEAD);
    LastOfSuffix("x.t1", AEAD);
    assert "x.t1"[3] == '1' && "x"[0] == 'x' && AEAD[4] == 'd';
  }

  lemma UnmarkedReadsBack(a: Files, b: Files, ref: string)
    requires LegacyKey(a).Some? && At(b, TierBlob(ref, Tier1)) == Tier1After(a, {}, ref)
    requires ref != SINGLE_INSTANCE && LegacyFile(ref) in a && Accepted(ref) && !Marked(ref)
    requires Open(LegacyKey(a).value, a[LegacyFile(ref)]).Some?
    ensures ReadsBack(a, b, ref)
  {
    hide RefProblem, HasSuffix, LegacyKey;
    LegacyFileByName(ref);
    hide Marked, LegacyFile, ClassifyBlob;
  }

  lemma RejectedDoesNotReadBack(a: Files, b: Files, ref: string)
    requires LegacyKey(a).Some? && LegacyFile(ref) in a && !Accepted(ref)
    ensures !ReadsBack(a, b, ref)
  {
    hide RefProblem, LegacyKey, LegacyFile;
  }

  lemma DeadEndDoesNotReadBack(a: Files, b: Files, dead: string)
    requires LegacyKey(a).Some? && At(b, TierBlob(dead, Tier1)) == Tier1After(a, {}, dead)
    requires forall f :: f in a ==> Proper(f)
    requires Marked(dead) && LegacyFile(dead) in a && TierBlob(dead, Tier1) !in a
    ensures !ReadsBack(a, b, dead)
  {
    hide RefProblem, HasSuffix, LegacyKey, LegacyFile;
    assert LegacyBlob(dead) !in a;
  }

  lemma SingleInstanceUnmarked()
    ensures !Marked(SINGLE_INSTANCE)
  {
    SingleInstanceEnd();
    assert TierMark(Tier0)[2] == '0' && TierMark(Tier1)[2] == '1';
    LastOfSuffix(SINGLE_INSTANCE, TierMark(Tier0));
    LastOfSuffix(SINGLE_INSTANCE, TierMark(Tier1));
  }
}
