/** What the operations of go/keys/service.go do on a disk that does not fail, with providers that
    do not change their answers: the relation each method of the service is proved against. */
module KeySpec {
  import opened Wrappers
  import opened KeyFiles
  import opened KeyDisk

  datatype KeyError =
    | BadRef(problem: RefError)
    | NoProvider(tier: Tier)
    | NoLegacyUnlock
    | WrongLength
    | Undecryptable
    | NoRandomness
    | ReadFailed
    | WriteFailed
    | RemoveFailed
    | GenerateFailed

  /** What the service remembers and what is on its disk. */
  datatype Vault = Vault(
    files: Files,
    cache0: Option<Bytes>,
    cache1: Option<Bytes>,
    slot0: Option<Provider>,
    slot1: Option<Provider>,
    migrated: bool)
  {
    function Cache(t: Tier): Option<Bytes> {
      if t == Tier0 then cache0 else cache1
    }

    function WithCache(t: Tier, master: Bytes): Vault {
      if t == Tier0 then this.(cache0 := Some(master)) else this.(cache1 := Some(master))
    }

    function Slot(t: Tier): Option<Provider> {
      if t == Tier0 then slot0 else slot1
    }

    /** A cached master is the plaintext of its file. */
    predicate CachesHold() {
      && (cache0.Some? ==> |cache0.value| == KEY_SIZE && PlainOf(At(files, Master(Tier0))) == cache0)
      && (cache1.Some? ==> |cache1.value| == KEY_SIZE && PlainOf(At(files, Master(Tier1))) == cache1)
    }
  }

  // ---------------------------------------------------------------- masters, without failures

  /** A master was drawn for tier t, sealed under kek, and cached. */
  ghost predicate Generated(t: Tier, v: Vault, w: Vault, kek: Bytes, r: Result<Bytes, KeyError>) {
    && r.Ok? && |r.value| == KEY_SIZE
    && w == v.WithCache(t, r.value).(files := w.files)
    && SameBut(v.files, w.files, Master(t))
    && SealsUnder(At(w.files, Master(t)), kek, r.value)
  }

  /** Step 0b from a raw 32-byte legacy master: a tier-0 master appears, and the single-instance
      blob, if there is one and it opens, moves to tier 0. */
  ghost predicate Tier0FromLegacy(v: Vault, w: Vault, kek: Bytes, legacy: Bytes, r: Result<Bytes, KeyError>) {
    var m0 := PlainOf(At(w.files, Master(Tier0)));
    && m0.Some? && |m0.value| == KEY_SIZE && SealsUnder(At(w.files, Master(Tier0)), kek, m0.value)
    && (forall f :: f != Master(Tier0) && f != SI && f != SI0 ==> At(w.files, f) == At(v.files, f))
    && if SI !in v.files then
         && r == Ok(m0.value) && w == v.WithCache(Tier0, m0.value).(files := w.files)
         && At(w.files, SI) == None && At(w.files, SI0) == At(v.files, SI0)
       else if Open(legacy, v.files[SI]).Some? then
         && r == Ok(m0.value) && w == v.WithCache(Tier0, m0.value).(files := w.files)
         && At(w.files, SI) == None
         && SealsUnder(At(w.files, SI0), m0.value, Open(legacy, v.files[SI]).value)
       else
         && r == Fail(Undecryptable) && w == v.(files := w.files)
         && At(w.files, SI) == At(v.files, SI) && At(w.files, SI0) == At(v.files, SI0)
  }

  /** Step 0b in two: the master is written, then the single instance resealed, if it is there. */
  lemma Tier0FromLegacyBy(v: Vault, a: Files, w: Vault, kek: Bytes, legacy: Bytes, m0: Bytes,
                          r: Result<Bytes, KeyError>)
    requires |m0| == KEY_SIZE && SameBut(v.files, a, Master(Tier0)) && SealsUnder(At(a, Master(Tier0)), kek, m0)
    requires forall f :: f != SI && f != SI0 ==> At(w.files, f) == At(a, f)
    requires w == (if r.Ok? then v.WithCache(Tier0, m0) else v).(files := w.files)
    requires if SI !in a then r == Ok(m0) && w.files == a
             else if Open(legacy, a[SI]).Some? then
               r == Ok(m0) && At(w.files, SI) == None && SealsUnder(At(w.files, SI0), m0, Open(legacy, a[SI]).value)
             else r == Fail(Undecryptable) && w.files == a
    ensures Tier0FromLegacy(v, w, kek, legacy, r)
  {
    assert At(a, SI) == At(v.files, SI) && At(a, SI0) == At(v.files, SI0);
    assert At(w.files, Master(Tier0)) == At(a, Master(Tier0));
  }

  /** ensureMaster on a reliable disk with steady providers. */
  ghost predicate EnsuresMaster(t: Tier, v: Vault, w: Vault, r: Result<Bytes, KeyError>) {
    var kek := Reply(v.Slot(t));
    if v.Cache(t).Some? then w == v && r == Ok(v.Cache(t).value)
    else if Master(t) in v.files then
      var b := v.files[Master(t)];
      if b.Length() != WRAPPED_LEN then w == v && r == Fail(WrongLength)
      else if kek.None? then w == v && r == Fail(NoProvider(t))
      else if Open(kek.value, b).None? then w == v && r == Fail(Undecryptable)
      else r == Ok(Open(kek.value, b).value) && w == v.WithCache(t, r.value)
    else if t == Tier0 && LegacyMaster in v.files then
      var b := v.files[LegacyMaster];
      if b.Length() == WRAPPED_LEN then w == v && r == Fail(NoLegacyUnlock)
      else if b.Length() != KEY_SIZE then w == v && r == Fail(WrongLength)
      else if kek.None? then w == v && r == Fail(NoProvider(t))
      else b.Raw? && Tier0FromLegacy(v, w, kek.value, b.bytes, r)
    else if kek.None? then w == v && r == Fail(NoProvider(t))
    else Generated(t, v, w, kek.value, r)
  }

  // ---------------------------------------------------------------- the tier-1 migration

  /** What the tier-1 migration makes of a directory when nothing fails. */
  datatype Verdict = NothingToDo | Refused | Deferred | HalfDone | Done

  /** The legacy master as Step 3b obtains it. */
  function LegacyMasterUnder(files: Files, kek: Bytes): Option<Bytes> {
    if LegacyMaster !in files then None
    else
      var b := files[LegacyMaster];
      if b.Length() == KEY_SIZE then LegacyKey(files)
      else if b.Length() == WRAPPED_LEN then Open(kek, b)
      else None
  }

  ghost predicate Tier0AtHand(v: Vault) {
    || v.cache0.Some?
    || Master(Tier0) !in v.files
    || Reply(v.slot0).None?
    || Unwrap(Reply(v.slot0).value, v.files[Master(Tier0)]).Some?
  }

  /** Step 3c done: a live tier-0 KEK forces a cached tier-0 master. */
  ghost predicate PreparedTier0(v: Vault, w: Vault) {
    var kek0 := Reply(v.slot0);
    && w == v.(files := w.files, cache0 := w.cache0)
    && SameBut(v.files, w.files, Master(Tier0))
    && (w.cache0.Some? ==> w.cache0 == v.cache0 || |w.cache0.value| == KEY_SIZE)
    && (if v.cache0.Some? || kek0.None? then w.cache0 == v.cache0
        else w.cache0.Some? && w.cache0 == PlainOf(At(w.files, Master(Tier0))))
    && (if Master(Tier0) in v.files || kek0.None? then w.files == v.files
        else w.cache0.Some? && SealsUnder(At(w.files, Master(Tier0)), kek0.value, w.cache0.value))
  }

  ghost function MigrationVerdict(v: Vault): Verdict {
    var kek1 := Reply(v.slot1);
    if LegacyMaster !in v.files then NothingToDo
    else if Master(Tier1) in v.files then Refused
    else if kek1.None? then Deferred
    else
      var legacy := LegacyMasterUnder(v.files, kek1.value);
      if legacy.None? then Deferred
      else if SI in v.files && Reply(v.slot0).None? then Deferred
      else if !Tier0AtHand(v) then Deferred
      else if SI in v.files && Open(legacy.value, v.files[SI]).None? then HalfDone
      else Done
  }

  /** What the tier-1 name of a ref holds once every legacy blob outside `left` has moved. */
  function Tier1After(a: Files, left: set<File>, ref: string): Option<Blob> {
    if ref != SINGLE_INSTANCE && LegacyBlob(ref) in a && LegacyBlob(ref) !in left then At(a, LegacyBlob(ref))
    else At(a, TierBlob(ref, Tier1))
  }

  /** Where every blob is once those outside `left` have moved, relative to the directory `a` before. */
  ghost predicate BlobsMoved(a: Files, b: Files, left: set<File>) {
    && (forall r :: r != SINGLE_INSTANCE ==>
          At(b, LegacyBlob(r)) == if LegacyBlob(r) in left then At(a, LegacyBlob(r)) else None)
    && (forall r :: At(b, TierBlob(r, Tier1)) == Tier1After(a, left, r))
  }

  lemma NothingMovedYet(a: Files)
    ensures BlobsMoved(a, a, a.Keys)
  {
  }

  lemma NothingToMove(a: Files, b: Files, f: File, left: set<File>)
    requires BlobsMoved(a, b, left + {f}) && !(f.LegacyBlob? && f.ref != SINGLE_INSTANCE)
    ensures BlobsMoved(a, b, left)
  {
    forall r
      ensures r != SINGLE_INSTANCE ==> (LegacyBlob(r) in left <==> LegacyBlob(r) in left + {f})
    {
    }
  }

  lemma StillToMove(a: Files, b: Files, ref: string, left: set<File>)
    requires BlobsMoved(a, b, left) && LegacyBlob(ref) in left && LegacyBlob(ref) in a && ref != SINGLE_INSTANCE
    ensures LegacyBlob(ref) in b
  {
    assert At(b, LegacyBlob(ref)) == At(a, LegacyBlob(ref));
  }

  /** One more blob moved. */
  lemma MovedNext(a: Files, b: Files, c: Files, ref: string, left: set<File>)
    requires BlobsMoved(a, b, left + {LegacyBlob(ref)}) && ref != SINGLE_INSTANCE
    requires LegacyBlob(ref) in a && LegacyBlob(ref) !in left
    requires forall f :: f != LegacyBlob(ref) && f != TierBlob(ref, Tier1) ==> At(c, f) == At(b, f)
    requires At(c, LegacyBlob(ref)) == None && At(c, TierBlob(ref, Tier1)) == At(b, LegacyBlob(ref))
    ensures BlobsMoved(a, c, left)
  {
    assert At(b, LegacyBlob(ref)) == At(a, LegacyBlob(ref));
    forall r
      ensures At(c, TierBlob(r, Tier1)) == Tier1After(a, left, r)
    {
      assert At(b, TierBlob(r, Tier1)) == Tier1After(a, left + {LegacyBlob(ref)}, r);
    }
    forall r | r != SINGLE_INSTANCE
      ensures At(c, LegacyBlob(r)) == if LegacyBlob(r) in left then At(a, LegacyBlob(r)) else None
    {
      if r != ref {
        assert At(c, LegacyBlob(r)) == At(b, LegacyBlob(r));
      }
    }
  }

  lemma SameMasters(a: Files, b: Files)
    requires At(b, LegacyMaster) == At(a, LegacyMaster) && At(b, Master(Tier1)) == At(a, Master(Tier1))
    ensures LegacyKey(a) == LegacyKey(b) && TakenOver(a) == TakenOver(b)
  {
  }

  lemma SameMasterFile(a: Files, b: Files)
    requires SameBut(a, b, Master(Tier1))
    ensures LegacyKey(b) == LegacyKey(a)
  {
    assert At(b, LegacyMaster) == At(a, LegacyMaster);
  }

  lemma AfterMove()
    ensures !TouchedByMove(SI) && !TouchedByMove(SI0) && !TouchedByMove(LegacyMaster)
    ensures forall t :: !TouchedByMove(Master(t))
  {
  }

  lemma BlobsMovedAmid(a: Files, a': Files, b: Files, b': Files)
    requires forall f :: f != SI && f != SI0 ==> At(a', f) == At(a, f)
    requires SameBut(b, b', LegacyMaster) && BlobsMoved(a', b, {})
    ensures BlobsMoved(a, b', {})
  {
    forall r
      ensures Tier1After(a, {}, r) == Tier1After(a', {}, r)
    {
      assert At(a', LegacyBlob(r)) == At(a, LegacyBlob(r)) || r == SINGLE_INSTANCE;
    }
  }

  /** The migration on a reliable disk with steady providers, by its verdict. */
  ghost predicate Migrates(v: Vault, w: Vault) {
    var kek0, kek1, a, b := Reply(v.slot0), Reply(v.slot1), v.files, w.files;
    var verdict := MigrationVerdict(v);
    if verdict == NothingToDo then w == v.(migrated := true)
    else if verdict == Refused || verdict == Deferred then w == v
    else
      var legacy := LegacyMasterUnder(a, kek1.value).value;
      && w == v.(files := b, cache0 := w.cache0, cache1 := Some(legacy), migrated := w.migrated)
      && SealsUnder(At(b, Master(Tier1)), kek1.value, legacy)
      && (w.cache0.Some? ==> w.cache0 == v.cache0 || |w.cache0.value| == KEY_SIZE)
      && (if v.cache0.Some? || kek0.None? then w.cache0 == v.cache0
          else w.cache0.Some? && w.cache0 == PlainOf(At(b, Master(Tier0))))
      && (if Master(Tier0) in a || kek0.None? then At(b, Master(Tier0)) == At(a, Master(Tier0))
          else SealsUnder(At(b, Master(Tier0)), kek0.value, w.cache0.value))
      && if verdict == HalfDone then
           && w.migrated == v.migrated
           && (forall f: File :: !f.Master? ==> At(b, f) == At(a, f))
         else
           && w.migrated
           && At(b, LegacyMaster) == None
           && BlobsMoved(a, b, {})
           && (forall f: File :: f != SI && f != SI0 && !TouchedByMove(f) && !f.Master? && f != LegacyMaster ==>
                 At(b, f) == At(a, f))
           && At(b, SI) == None
           && if SI in a then
                w.cache0.Some? && SealsUnder(At(b, SI0), w.cache0.value, Open(legacy, a[SI]).value)
              else At(b, SI0) == At(a, SI0)
  }

  /** Steps 3e to 3h from u to w, u holding `.master-tier1` already. */
  ghost predicate Finished(u: Vault, w: Vault, legacy: Bytes) {
    var a, b := u.files, w.files;
    if SI in a && (u.cache0.None? || Open(legacy, a[SI]).None?) then w == u
    else
      && w == u.(files := b, migrated := true)
      && At(b, LegacyMaster) == None && At(b, SI) == None
      && BlobsMoved(a, b, {})
      && (forall f: File :: f != SI && f != SI0 && !TouchedByMove(f) && f != LegacyMaster ==> At(b, f) == At(a, f))
      && if SI in a then SealsUnder(At(b, SI0), u.cache0.value, Open(legacy, a[SI]).value)
         else At(b, SI0) == At(a, SI0)
  }

  lemma BlobsMovedAfterMasters(a: Files, a': Files, b: Files)
    requires forall f: File :: !f.Master? ==> At(a', f) == At(a, f)
    requires BlobsMoved(a', b, {})
    ensures BlobsMoved(a, b, {})
  {
    forall r
      ensures Tier1After(a, {}, r) == Tier1After(a', {}, r)
    {
      assert At(a', LegacyBlob(r)) == At(a, LegacyBlob(r));
    }
  }

  lemma MigratesByStages(v: Vault, v1: Vault, v2: Vault, w: Vault)
    requires MigrationVerdict(v) == HalfDone || MigrationVerdict(v) == Done
    requires PreparedTier0(v, v1)
    requires var kek, legacy := Reply(v.slot1).value, LegacyMasterUnder(v.files, Reply(v.slot1).value).value;
      && v2 == v1.(files := v2.files, cache1 := Some(legacy))
      && SameBut(v1.files, v2.files, Master(Tier1))
      && SealsUnder(At(v2.files, Master(Tier1)), kek, legacy)
      && Finished(v2, w, legacy)
    ensures Migrates(v, w)
  {
    assert forall f: File :: !f.Master? ==> At(v2.files, f) == At(v.files, f);
    assert At(v2.files, SI) == At(v.files, SI);
    AfterMove();
    assert At(v2.files, Master(Tier0)) == At(v1.files, Master(Tier0));
    if MigrationVerdict(v) == Done {
      BlobsMovedAfterMasters(v.files, v2.files, w.files);
      hide BlobsMoved;
    }
  }

  predicate TouchedByMove(f: File) {
    || (f.LegacyBlob? && f.ref != SINGLE_INSTANCE)
    || (f.TierBlob? && f.tier == Tier1)
  }

  // ---------------------------------------------------------------- the operations of a caller

  datatype Op =
    | Wire(tier: Tier, provider: Option<Provider>)
    | Put(tier: Tier, ref: string, plain: Bytes)
    | Get(tier: Tier, ref: string)
    | GetOrCreate(tier: Tier, ref: string, generated: Option<Bytes>)
    | Has(tier: Tier, ref: string)
    | Delete(tier: Tier, ref: string)
    | List(tier: Tier)
    | Shutdown
    | Restart
  {
    /** A caller's operation that may write or remove the blob of its ref. */
    predicate Changes() {
      Put? || GetOrCreate? || Delete?
    }
  }

  datatype Answer =
    | Acknowledged
    | Found(plain: Bytes)
    | Present(yes: bool)
    | Refs(refs: set<string>)
    | Failed(error: KeyError)

  function KeyFile(ref: string, t: Tier): Result<File, KeyError> {
    match RefProblem(ref)
    case Some(problem) => Fail(BadRef(problem))
    case None => Ok(TierBlob(ref, t))
  }

  ghost function RefsOf(files: Files, t: Tier): set<string> {
    set f | f in files && f.TierBlob? && f.tier == t :: f.ref
  }

  /** A change to one blob's file changes the refs of its tier by that ref alone. */
  lemma RefsAfter(a: Files, b: Files, ref: string, t: Tier, u: Tier)
    requires SameBut(a, b, TierBlob(ref, t))
    ensures RefsOf(b, u) ==
      if u != t then RefsOf(a, u)
      else if TierBlob(ref, t) in b then RefsOf(a, u) + {ref}
      else RefsOf(a, u) - {ref}
  {
    forall r
      ensures r in RefsOf(a, u) <==> TierBlob(r, u) in a
      ensures r in RefsOf(b, u) <==> TierBlob(r, u) in b
    {
    }
    forall r
      ensures TierBlob(r, u) != TierBlob(ref, t) ==> (TierBlob(r, u) in b <==> TierBlob(r, u) in a)
    {
      assert TierBlob(r, u) != TierBlob(ref, t) ==> At(b, TierBlob(r, u)) == At(a, TierBlob(r, u));
    }
  }

  lemma RefsMember(a: Files, ref: string, t: Tier)
    ensures ref in RefsOf(a, t) <==> TierBlob(ref, t) in a
  {
  }

  lemma RefsUnchanged(a: Files, b: Files, u: Tier)
    requires forall r :: At(b, TierBlob(r, u)) == At(a, TierBlob(r, u))
    ensures RefsOf(b, u) == RefsOf(a, u)
  {
    forall r
      ensures r in RefsOf(a, u) <==> TierBlob(r, u) in a
      ensures r in RefsOf(b, u) <==> TierBlob(r, u) in b
      ensures TierBlob(r, u) in b <==> TierBlob(r, u) in a
    {
      assert At(b, TierBlob(r, u)) == At(a, TierBlob(r, u));
    }
  }

  /** getLocked, given what ensureMaster returned. */
  function GetAnswer(files: Files, t: Tier, ref: string, master: Result<Bytes, KeyError>): Answer {
    if master.Fail? then Failed(master.error)
    else if RefProblem(ref).Some? then Failed(BadRef(RefProblem(ref).value))
    else if TierBlob(ref, t) !in files then Failed(ReadFailed)
    else if Open(master.value, files[TierBlob(ref, t)]).None? then Failed(Undecryptable)
    else Found(Open(master.value, files[TierBlob(ref, t)]).value)
  }

  ghost predicate Puts(t: Tier, ref: string, plain: Bytes, u: Vault, w: Vault,
                       master: Result<Bytes, KeyError>, answer: Answer) {
    if master.Fail? then w == u && answer == Failed(master.error)
    else if RefProblem(ref).Some? then w == u && answer == Failed(BadRef(RefProblem(ref).value))
    else
      && answer == Acknowledged && w == u.(files := w.files)
      && SameBut(u.files, w.files, TierBlob(ref, t))
      && SealsUnder(At(w.files, TierBlob(ref, t)), master.value, plain)
  }

  ghost predicate Gets(t: Tier, ref: string, v: Vault, w: Vault, answer: Answer) {
    exists master :: EnsuresMaster(t, v, w, master) && answer == GetAnswer(w.files, t, ref, master)
  }

  ghost predicate Stores(t: Tier, ref: string, plain: Bytes, v: Vault, w: Vault, answer: Answer) {
    exists u, master :: EnsuresMaster(t, v, u, master) && Puts(t, ref, plain, u, w, master, answer)
  }

  /** What follows the second read of getOrCreate, which answered `second`. */
  ghost predicate Creates(t: Tier, ref: string, generated: Option<Bytes>, v: Vault, w: Vault,
                          second: Answer, answer: Answer) {
    if second.Found? then w == v && answer == second
    else if generated.None? then w == v && answer == Failed(GenerateFailed)
    else exists stored ::
      Stores(t, ref, generated.value, v, w, stored)
      && answer == if stored == Acknowledged then Found(generated.value) else stored
  }

  ghost predicate GetsOrCreates(t: Tier, ref: string, generated: Option<Bytes>, v: Vault, w: Vault, answer: Answer) {
    exists u, first :: Gets(t, ref, v, u, first) &&
      if first.Found? then w == u && answer == first
      else exists u', second :: Gets(t, ref, u, u', second) && Creates(t, ref, generated, u', w, second, answer)
  }

  /** One operation on a reliable disk with steady providers. */
  ghost predicate CleanStep(op: Op, v: Vault, w: Vault, answer: Answer) {
    match op
    case Wire(t, provider) =>
      && answer == Acknowledged
      && if t == Tier0 then w == v.(slot0 := provider, cache0 := None)
         else if provider.Some? && !v.migrated then Migrates(v.(slot1 := provider, cache1 := None), w)
         else w == v.(slot1 := provider, cache1 := None)
    case Put(t, ref, plain) => Stores(t, ref, plain, v, w, answer)
    case Get(t, ref) => Gets(t, ref, v, w, answer)
    case GetOrCreate(t, ref, generated) => GetsOrCreates(t, ref, generated, v, w, answer)
    case Has(t, ref) =>
      && w == v
      && answer == if RefProblem(ref).Some? then Failed(BadRef(RefProblem(ref).value))
                   else Present(TierBlob(ref, t) in v.files)
    case Delete(t, ref) =>
      if RefProblem(ref).Some? then w == v && answer == Failed(BadRef(RefProblem(ref).value))
      else w == v.(files := v.files - {TierBlob(ref, t)}) && answer == Acknowledged
    case List(t) => w == v && answer == Refs(RefsOf(v.files, t))
    case Shutdown => w == v.(cache0 := None, cache1 := None) && answer == Acknowledged
    case Restart => w == Vault(v.files, None, None, None, None, false) && answer == Acknowledged
  }

  lemma StoresBy(t: Tier, ref: string, plain: Bytes, v: Vault, u: Vault, w: Vault,
                 master: Result<Bytes, KeyError>, answer: Answer)
    requires EnsuresMaster(t, v, u, master) && Puts(t, ref, plain, u, w, master, answer)
    ensures Stores(t, ref, plain, v, w, answer)
  {
    hide EnsuresMaster, Puts;
  }

  lemma GetsOrCreatesBy(t: Tier, ref: string, generated: Option<Bytes>, v: Vault, u: Vault, u': Vault, w: Vault,
                        first: Answer, second: Answer, answer: Answer)
    requires Gets(t, ref, v, u, first)
    requires if first.Found? then w == u && answer == first
             else Gets(t, ref, u, u', second) && Creates(t, ref, generated, u', w, second, answer)
    ensures GetsOrCreates(t, ref, generated, v, w, answer)
  {
    hide Gets, Creates;
  }

  // ---------------------------------------------------------------- the audit trail

  datatype AuditEvent = Tier0Stored | Tier0Deleted | Tier1Stored | Tier1Replaced | Tier1Deleted

  datatype Source = Internal | WailsInput

  /** A credential-mutation row; the outcome is ok exactly when the error code is empty. */
  datatype AuditRow = AuditRow(event: AuditEvent, ref: string, source: Source, errorCode: string)

  datatype Change = KeyReplaced(ref: string) | KeyDeleted(ref: string)

  /** The tier-1 refs on disk, the rows recorded and the messages broadcast so far. */
  datatype Trail = Trail(refs: set<string>, rows: seq<AuditRow>, bus: seq<Change>)

  /** What one row says about the tier-1 refs. */
  function Replay1(refs: set<string>, row: AuditRow): set<string> {
    if row.errorCode != "" then refs
    else
      match row.event
      case Tier1Stored => refs + {row.ref}
      case Tier1Deleted => refs - {row.ref}
      case _ => refs
  }

  /** The broadcast that goes with a row. */
  function Broadcast(row: AuditRow): seq<Change> {
    if row.errorCode != "" then []
    else
      match row.event
      case Tier1Replaced => [KeyReplaced(row.ref)]
      case Tier1Deleted => [KeyDeleted(row.ref)]
      case _ => []
  }

  /** An operation records at most one row, says the truth in it, and broadcasts accordingly: an
      ok row names the change made, anything else leaves the tier-1 refs alone. */
  ghost predicate Recorded(a: Trail, b: Trail) {
    || (b.refs == a.refs && b.rows == a.rows && b.bus == a.bus)
    || (exists row ::
          && b.rows == a.rows + [row]
          && b.refs == Replay1(a.refs, row)
          && b.bus == a.bus + Broadcast(row)
          && (row.event == Tier1Stored && row.errorCode == "" ==> row.ref !in a.refs)
          && (row.event == Tier1Replaced || row.event == Tier1Deleted ==> row.errorCode == "" ==> row.ref in a.refs))
  }

  lemma NothingRecorded(a: Trail)
    ensures Recorded(a, a)
  {
  }

  lemma RecordedBy(a: Trail, b: Trail, row: AuditRow)
    requires b.rows == a.rows + [row] && b.refs == Replay1(a.refs, row) && b.bus == a.bus + Broadcast(row)
    requires row.errorCode == "" && row.event == Tier1Stored ==> row.ref !in a.refs
    requires row.errorCode == "" && (row.event == Tier1Replaced || row.event == Tier1Deleted) ==> row.ref in a.refs
    ensures Recorded(a, b)
  {
  }
}
