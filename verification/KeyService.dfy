/** The tier-partitioned key store of go/keys/service.go: two cached masters, two KEK providers,
    a migration latch, and the directory they guard. */
module KeyService {
  import opened Wrappers
  import opened KeyFiles
  import opened KeyDisk
  import opened KeySpec

  class Service {
    const disk: Disk
    /** The recorder's error codespace; the recorder itself keeps `rows`, the event bus `bus`. */
    const errorCode: KeyError -> string
    var rows: seq<AuditRow>
    var bus: seq<Change>
    var slot0: Option<Provider>
    var slot1: Option<Provider>
    var cache0: Option<Bytes>
    var cache1: Option<Bytes>
    var migrationComplete: bool

    ghost function View(): Vault
      reads this, disk
    {
      Vault(disk.files, cache0, cache1, slot0, slot1, migrationComplete)
    }

    ghost predicate Valid()
      reads this, disk
    {
      disk.Valid() && View().CachesHold()
    }

    ghost predicate Clean()
      reads this
    {
      disk.reliable && Steady(slot0) && Steady(slot1)
    }

    function Slot(t: Tier): Option<Provider>
      reads this
    {
      if t == Tier0 then slot0 else slot1
    }

    function Cache(t: Tier): Option<Bytes>
      reads this
    {
      if t == Tier0 then cache0 else cache1
    }

    /** New, with the caches empty, nothing wired and the latch open; the recorder and the bus,
        which outlive a service, have seen `rows` and `bus` so far. */
    constructor (disk: Disk, errorCode: KeyError -> string, rows: seq<AuditRow>, bus: seq<Change>)
      requires disk.Valid()
      ensures Valid() && this.disk == disk && this.errorCode == errorCode
      ensures this.rows == rows && this.bus == bus
      ensures View() == Vault(disk.files, None, None, None, None, false)
    {
      this.disk, this.errorCode := disk, errorCode;
      this.rows, this.bus := rows, bus;
      slot0, slot1, cache0, cache1, migrationComplete := None, None, None, None, false;
    }

    /** currentKEKFor: ask the wired provider once; a KEK of the wrong length counts as none. */
    method CurrentKEK(t: Tier) returns (kek: Option<Bytes>)
      ensures kek.Some? ==> Gives(Slot(t), kek.value)
      ensures if Slot(t).None? then kek.None? else exists answer :: answer in Slot(t).value && kek == Usable(answer)
      ensures Steady(Slot(t)) ==> kek == Reply(Slot(t))
    {
      var slot := Slot(t);
      if slot.None? {
        return None;
      }
      var answer :| answer in slot.value;
      kek := Usable(answer);
    }

    method RandomKey() returns (key: Option<Bytes>)
      ensures key.Some? ==> |key.value| == KEY_SIZE
      ensures disk.reliable ==> key.Some?
    {
      var ok := disk.Chance();
      if !ok {
        return None;
      }
      assert |seq(KEY_SIZE, _ => 0 as Byte)| == KEY_SIZE;
      var drawn: Bytes :| |drawn| == KEY_SIZE;
      key := Some(drawn);
    }

    /** Sealing draws a fresh nonce. */
    method Seal(key: Bytes, plain: Bytes) returns (b: Blob)
      ensures SealsUnder(Some(b), key, plain)
    {
      var nonce: nat := *;
      b := Sealed(key, nonce, plain);
    }

    /** writeMasterLocked, which every caller uses on an absent master file. */
    method WriteMaster(t: Tier, master: Bytes, kek: Bytes) returns (ok: bool)
      requires Valid() && Master(t) !in disk.files
      requires |master| == KEY_SIZE && Gives(Slot(t), kek)
      modifies disk
      ensures Valid() && Grows(old(disk.history), disk.history, slot0, slot1, {})
      ensures disk.reliable ==> ok
      ensures ok ==> SameBut(old(disk.files), disk.files, Master(t))
      ensures ok ==> SealsUnder(At(disk.files, Master(t)), kek, master)
      ensures !ok ==> disk.files == old(disk.files)
    {
      var wrapped := Seal(kek, master);
      ok := disk.WriteFile(Master(t), wrapped, Author.Service);
      if ok {
        GrowsByOne(old(disk.history), Moment(disk.files, Master(t), Author.Service), slot0, slot1, {});
      }
    }

    // -------------------------------------------------------------- ensureMaster

    method EnsureMaster(t: Tier) returns (r: Result<Bytes, KeyError>)
      requires Valid()
      modifies `cache0, `cache1, disk
      ensures Valid() && Grows(old(disk.history), disk.history, slot0, slot1, {})
      ensures forall f :: f != Master(t) && (t == Tier0 ==> f != SI && f != SI0) ==>
        At(disk.files, f) == At(old(disk.files), f)
      ensures r.Ok? ==> Cache(t) == Some(r.value)
      ensures r.Ok? ==> |r.value| == KEY_SIZE && PlainOf(At(disk.files, Master(t))) == Some(r.value)
      ensures Cache(if t == Tier0 then Tier1 else Tier0) == old(Cache(if t == Tier0 then Tier1 else Tier0))
      ensures Clean() ==> EnsuresMaster(t, old(View()), View(), r)
    {
      if Cache(t).Some? {
        return Ok(Cache(t).value);
      }
      if t == Tier0 {
        r := EnsureTier0();
      } else {
        r := EnsureTier1();
      }
    }

    /** The branch both tiers share: the master file is there. */
    method LoadMaster(t: Tier) returns (r: Result<Bytes, KeyError>)
      requires Valid() && Master(t) in disk.files
      ensures r.Ok? ==> |r.value| == KEY_SIZE && PlainOf(At(disk.files, Master(t))) == Some(r.value)
      ensures Clean() ==>
        var b, kek := disk.files[Master(t)], Reply(Slot(t));
        if b.Length() != WRAPPED_LEN then r == Fail(WrongLength)
        else if kek.None? then r == Fail(NoProvider(t))
        else if Open(kek.value, b).None? then r == Fail(Undecryptable)
        else r == Ok(Open(kek.value, b).value)
    {
      var read := disk.ReadFile(Master(t));
      if read.None? {
        return Fail(ReadFailed);
      }
      var b := read.value;
      if b.Length() != WRAPPED_LEN {
        return Fail(WrongLength);
      }
      var kek := CurrentKEK(t);
      if kek.None? {
        return Fail(NoProvider(t));
      }
      var unwrapped := Open(kek.value, b);
      if unwrapped.None? {
        return Fail(Undecryptable);
      }
      r := Ok(unwrapped.value);
    }

    method EnsureTier0() returns (r: Result<Bytes, KeyError>)
      requires Valid() && cache0.None?
      modifies `cache0, disk
      ensures Valid() && Grows(old(disk.history), disk.history, slot0, slot1, {})
      ensures forall f :: f != Master(Tier0) && f != SI && f != SI0 ==> At(disk.files, f) == At(old(disk.files), f)
      ensures r.Ok? ==> cache0 == Some(r.value)
      ensures Clean() ==> EnsuresMaster(Tier0, old(View()), View(), r)
    {
      if Master(Tier0) in disk.files {
        r := LoadMaster(Tier0);
        if r.Ok? {
          cache0 := Some(r.value);
        }
        return;
      }
      if LegacyMaster in disk.files {
        var read := disk.ReadFile(LegacyMaster);
        if read.None? {
          return Fail(ReadFailed);
        }
        var legacy := read.value;
        if legacy.Length() == KEY_SIZE {
          r := MigrateTier0FromRawLegacy(legacy.bytes);
        } else if legacy.Length() == WRAPPED_LEN {
          r := Fail(NoLegacyUnlock);
        } else {
          r := Fail(WrongLength);
        }
        return;
      }
      r := GenerateMaster(Tier0);
      if r.Ok? {
        cache0 := Some(r.value);
      }
    }

    method EnsureTier1() returns (r: Result<Bytes, KeyError>)
      requires Valid() && cache1.None?
      modifies `cache1, disk
      ensures Valid() && Grows(old(disk.history), disk.history, slot0, slot1, {})
      ensures SameBut(old(disk.files), disk.files, Master(Tier1))
      ensures r.Ok? ==> cache1 == Some(r.value)
      ensures Clean() ==> EnsuresMaster(Tier1, old(View()), View(), r)
    {
      if Master(Tier1) in disk.files {
        r := LoadMaster(Tier1);
      } else {
        r := GenerateMaster(Tier1);
      }
      if r.Ok? {
        cache1 := Some(r.value);
      }
    }

    /** The fresh-install branch of both tiers. */
    method GenerateMaster(t: Tier) returns (r: Result<Bytes, KeyError>)
      requires Valid() && Master(t) !in disk.files
      modifies disk
      ensures Valid() && Grows(old(disk.history), disk.history, slot0, slot1, {})
      ensures SameBut(old(disk.files), disk.files, Master(t))
      ensures r.Ok? ==> |r.value| == KEY_SIZE && PlainOf(At(disk.files, Master(t))) == Some(r.value)
      ensures Clean() ==>
        if Reply(Slot(t)).None? then r == Fail(NoProvider(t)) && disk.files == old(disk.files)
        else
          && r.Ok? && SameBut(old(disk.files), disk.files, Master(t))
          && SealsUnder(At(disk.files, Master(t)), Reply(Slot(t)).value, r.value)
    {
      var kek := CurrentKEK(t);
      if kek.None? {
        return Fail(NoProvider(t));
      }
      var master := RandomKey();
      if master.None? {
        return Fail(NoRandomness);
      }
      var ok := WriteMaster(t, master.value, kek.value);
      if !ok {
        return Fail(WriteFailed);
      }
      r := Ok(master.value);
    }

    /** Step 0b: tier-0 alone moves over, before any unlock. `.master` stays. */
    method MigrateTier0FromRawLegacy(legacy: Bytes) returns (r: Result<Bytes, KeyError>)
      requires Valid() && cache0.None? && Master(Tier0) !in disk.files
      requires LegacyMaster in disk.files && disk.files[LegacyMaster] == Raw(legacy) && |legacy| == KEY_SIZE
      modifies `cache0, disk
      ensures Valid() && Grows(old(disk.history), disk.history, slot0, slot1, {})
      ensures forall f :: f != Master(Tier0) && f != SI && f != SI0 ==> At(disk.files, f) == At(old(disk.files), f)
      ensures r.Ok? ==> cache0 == Some(r.value)
      ensures Clean() ==>
        if Reply(slot0).None? then View() == old(View()) && r == Fail(NoProvider(Tier0))
        else Tier0FromLegacy(old(View()), View(), Reply(slot0).value, legacy, r)
    {
      hide Grows, Step, KekGiven, Tier0FromLegacy;
      GrowsNot(disk.history, slot0, slot1, {});
      ghost var v := View();
      var kek := CurrentKEK(Tier0);
      if kek.None? {
        return Fail(NoProvider(Tier0));
      }
      var drawn := RandomKey();
      if drawn.None? {
        return Fail(NoRandomness);
      }
      var ok := WriteMaster(Tier0, drawn.value, kek.value);
      if !ok {
        return Fail(WriteFailed);
      }
      ghost var h, a := disk.history, disk.files;
      assert At(a, LegacyMaster) == At(v.files, LegacyMaster);
      r := Ok(drawn.value);
      if SI in disk.files {
        var moved := ResealSingleInstance(legacy, drawn.value);
        GrowsOn(old(disk.history), h, disk.history, slot0, slot1, {});
        if moved.Fail? {
          r := Fail(moved.error);
        }
      }
      if r.Ok? {
        cache0 := Some(drawn.value);
      }
      if Clean() {
        Tier0FromLegacyBy(v, a, View(), kek.value, legacy, drawn.value, r);
      }
    }

    /** Steps 0b.iv and 3e: the single-instance blob moves from the legacy to the tier-0 master.
        That the old blob cannot be removed afterwards is only a warning. */
    method ResealSingleInstance(legacy: Bytes, m0: Bytes) returns (r: Result<(), KeyError>)
      requires Valid() && SI in disk.files
      requires LegacyKey(disk.files) == Some(legacy) && PlainOf(At(disk.files, Master(Tier0))) == Some(m0)
      modifies disk
      ensures Valid() && Grows(old(disk.history), disk.history, slot0, slot1, {})
      ensures forall f :: f != SI && f != SI0 ==> At(disk.files, f) == At(old(disk.files), f)
      ensures disk.reliable ==>
        var plain := Open(legacy, old(disk.files)[SI]);
        if plain.None? then r == Fail(Undecryptable) && disk.files == old(disk.files)
        else r == Ok(()) && At(disk.files, SI) == None && SealsUnder(At(disk.files, SI0), m0, plain.value)
      ensures r.Ok? && SI in disk.files ==> Reseals(disk.files, At(disk.files, SI0))
    {
      hide Grows, Step, Reseals, LegacyKey;
      GrowsNot(disk.history, slot0, slot1, {});
      var read := disk.ReadFile(SI);
      if read.None? {
        return Fail(ReadFailed);
      }
      var plain := Open(legacy, read.value);
      if plain.None? {
        return Fail(Undecryptable);
      }
      var resealed := Seal(m0, plain.value);
      MakesReseal(disk.files, Some(resealed), legacy, m0);
      hide Open, SealsUnder, PlainOf;
      var ok := disk.WriteFile(SI0, resealed, Author.Service);
      if !ok {
        return Fail(WriteFailed);
      }
      ghost var h, a := disk.history, disk.files;
      ResealIsStep(old(disk.files), a);
      ResealsStill(old(disk.files), a, Some(resealed));
      GrowsByOne(old(disk.history), Moment(a, SI0, Author.Service), slot0, slot1, {});
      ok := disk.Remove(SI, Author.Service);
      if ok {
        DropOfResealedIsStep(a, disk.files);
        GrowsByOne(h, Moment(disk.files, SI, Author.Service), slot0, slot1, {});
        GrowsOn(old(disk.history), h, disk.history, slot0, slot1, {});
      }
      r := Ok(());
    }

    // -------------------------------------------------------------- the tier-1 migration

    /** Steps 3a and 3b. */
    method ReadLegacyMaster(kek: Bytes) returns (legacy: Option<Bytes>)
      requires LegacyMaster in disk.files
      ensures legacy.Some? ==> |legacy.value| == KEY_SIZE && LegacyKey(disk.files) == legacy
      ensures legacy.Some? ==> legacy == LegacyMasterUnder(disk.files, kek)
      ensures disk.reliable ==> legacy == LegacyMasterUnder(disk.files, kek)
    {
      var read := disk.ReadFile(LegacyMaster);
      if read.None? {
        return None;
      }
      var b := read.value;
      if b.Length() == KEY_SIZE {
        legacy := Some(b.bytes);
      } else if b.Length() == WRAPPED_LEN {
        legacy := Open(kek, b);
      } else {
        legacy := None;
      }
    }

    /** Step 3c: have a tier-0 master at hand if a tier-0 KEK allows it. */
    method PrepareTier0() returns (ok: bool)
      requires Valid()
      modifies `cache0, disk
      ensures Valid() && Grows(old(disk.history), disk.history, slot0, slot1, {})
      ensures SameBut(old(disk.files), disk.files, Master(Tier0))
      ensures Clean() ==> ok == Tier0AtHand(old(View()))
      ensures Clean() && !ok ==> View() == old(View())
      ensures Clean() && ok ==> PreparedTier0(old(View()), View())
    {
      hide Grows, Step;
      GrowsNot(disk.history, slot0, slot1, {});
      ok := true;
      if Master(Tier0) !in disk.files {
        var kek := CurrentKEK(Tier0);
        if kek.Some? {
          var drawn := RandomKey();
          if drawn.None? {
            return false;
          }
          ok := WriteMaster(Tier0, drawn.value, kek.value);
          if ok {
            cache0 := Some(drawn.value);
          }
        }
      } else if cache0.None? {
        var kek := CurrentKEK(Tier0);
        if kek.Some? {
          var read := disk.ReadFile(Master(Tier0));
          if read.None? || read.value.Length() != WRAPPED_LEN {
            return false;
          }
          var unwrapped := Open(kek.value, read.value);
          if unwrapped.None? {
            return false;
          }
          cache0 := unwrapped;
        }
      }
    }

    /** Step 3f: every legacy blob but the single instance's goes to its tier-1 name, by copying
        and removing. A copy whose original cannot be removed is only a warning. */
    method MoveBlobs() returns (ok: bool)
      requires Valid() && TakenOver(disk.files)
      modifies disk
      ensures Valid() && TakenOver(disk.files) && Grows(old(disk.history), disk.history, slot0, slot1, {})
      ensures forall f :: !TouchedByMove(f) ==> At(disk.files, f) == At(old(disk.files), f)
      ensures ok ==> Copied(disk.files, {})
      ensures disk.reliable ==> ok && BlobsMoved(old(disk.files), disk.files, {})
    {
      hide Grows, Step, TakenOver, KekGiven, Copied, BlobsMoved;
      GrowsNot(disk.history, slot0, slot1, {});
      ok := disk.Chance();
      if !ok {
        return;
      }
      ghost var a := disk.files;
      var entries := disk.files.Keys;
      NothingCopiedYet(a);
      NothingMovedYet(a);
      while entries != {}
        invariant ok && entries <= a.Keys
        invariant Valid() && TakenOver(disk.files) && Grows(old(disk.history), disk.history, slot0, slot1, {})
        invariant forall f :: !TouchedByMove(f) ==> At(disk.files, f) == At(a, f)
        invariant Copied(disk.files, entries)
        invariant disk.reliable ==> BlobsMoved(a, disk.files, entries)
      {
        ghost var h, b, left := disk.history, disk.files, entries;
        var f :| f in entries;
        entries := entries - {f};
        assert left == entries + {f};
        if f.LegacyBlob? && f.ref != SINGLE_INSTANCE {
          if disk.reliable {
            StillToMove(a, b, f.ref, left);
          }
          ok := MoveBlob(f.ref);
          GrowsOn(old(disk.history), h, disk.history, slot0, slot1, {});
          if !ok {
            return;
          }
          CopiedNext(b, disk.files, f.ref, entries);
          if disk.reliable {
            MovedNext(a, b, disk.files, f.ref, entries);
          }
        } else {
          NothingToCopy(b, f, entries);
          if disk.reliable {
            NothingToMove(a, b, f, entries);
          }
        }
      }
    }

    method MoveBlob(ref: string) returns (ok: bool)
      requires Valid() && TakenOver(disk.files) && ref != SINGLE_INSTANCE
      modifies disk
      ensures Valid() && TakenOver(disk.files) && Grows(old(disk.history), disk.history, slot0, slot1, {})
      ensures forall f :: f != LegacyBlob(ref) && f != TierBlob(ref, Tier1) ==>
        At(disk.files, f) == At(old(disk.files), f)
      ensures ok ==> LegacyBlob(ref) in old(disk.files)
      ensures ok ==> At(disk.files, TierBlob(ref, Tier1)) == At(old(disk.files), LegacyBlob(ref))
      ensures LegacyBlob(ref) in disk.files ==> At(disk.files, LegacyBlob(ref)) == At(old(disk.files), LegacyBlob(ref))
      ensures disk.reliable && LegacyBlob(ref) in old(disk.files) ==>
        ok && At(disk.files, LegacyBlob(ref)) == None
    {
      hide Grows, Step, TakenOver;
      GrowsNot(disk.history, slot0, slot1, {});
      var read := disk.ReadFile(LegacyBlob(ref));
      if read.None? {
        return false;
      }
      ok := disk.WriteFile(TierBlob(ref, Tier1), read.value, Author.Service);
      if !ok {
        return;
      }
      ghost var h, a := disk.history, disk.files;
      MoveIsStep(old(disk.files), a, ref);
      GrowsByOne(old(disk.history), Moment(a, TierBlob(ref, Tier1), Author.Service), slot0, slot1, {});
      var removed := disk.Remove(LegacyBlob(ref), Author.Service);
      if removed {
        DropOfMovedIsStep(a, disk.files, ref);
        GrowsByOne(h, Moment(disk.files, LegacyBlob(ref), Author.Service), slot0, slot1, {});
        GrowsOn(old(disk.history), h, disk.history, slot0, slot1, {});
      }
    }

    /** migrateTier1Locked. */
    method MigrateTier1()
      requires Valid()
      modifies `cache0, `cache1, `migrationComplete, disk
      ensures Valid() && Grows(old(disk.history), disk.history, slot0, slot1, {})
      ensures LegacyMaster !in old(disk.files) ==> disk.files == old(disk.files)
      ensures migrationComplete ==> old(migrationComplete) || LegacyMaster !in disk.files || AllHome(disk.files)
      ensures Clean() ==> Migrates(old(View()), View())
    {
      hide Grows, Step, KekGiven;
      ghost var h0 := disk.history;
      GrowsNot(h0, slot0, slot1, {});
      if LegacyMaster !in disk.files {
        migrationComplete := true;
        return;
      }
      if Master(Tier1) in disk.files {
        return;
      }
      var plan := PlanMigration();
      if plan.None? {
        return;
      }
      var (legacy, kek) := plan.value;
      ghost var h1, v1 := disk.history, View();
      assert At(disk.files, Master(Tier1)) == At(old(disk.files), Master(Tier1));
      var ok := TakeOver(legacy, kek);
      GrowsOn(h0, h1, disk.history, slot0, slot1, {});
      if !ok {
        return;
      }
      ghost var h2, v2 := disk.history, View();
      assert LegacyKey(disk.files) == Some(legacy) by { SameMasterFile(v1.files, v2.files); }
      FinishMigration(legacy);
      GrowsOn(h0, h2, disk.history, slot0, slot1, {});
      if Clean() {
        MigratesByStages(old(View()), v1, v2, View());
      }
    }

    /** Steps 3 to 3c: the legacy master and the tier-1 KEK, once everything Step 3e needs is at hand. */
    method PlanMigration() returns (plan: Option<(Bytes, Bytes)>)
      requires Valid() && LegacyMaster in disk.files && Master(Tier1) !in disk.files
      modifies `cache0, disk
      ensures Valid() && Grows(old(disk.history), disk.history, slot0, slot1, {})
      ensures SameBut(old(disk.files), disk.files, Master(Tier0))
      ensures plan.Some? ==>
        && |plan.value.0| == KEY_SIZE && LegacyKey(disk.files) == Some(plan.value.0)
        && Gives(slot1, plan.value.1)
      ensures Clean() ==> (plan.None? <==> MigrationVerdict(old(View())) == Deferred)
      ensures Clean() && plan.None? ==> View() == old(View())
      ensures Clean() && plan.Some? ==>
        && Reply(slot1) == Some(plan.value.1)
        && LegacyMasterUnder(old(disk.files), plan.value.1) == Some(plan.value.0)
        && PreparedTier0(old(View()), View())
    {
      hide Grows, Step, KekGiven;
      GrowsNot(disk.history, slot0, slot1, {});
      var kek := CurrentKEK(Tier1);
      if kek.None? {
        return None;
      }
      var legacy := ReadLegacyMaster(kek.value);
      if legacy.None? {
        return None;
      }
      if SI in disk.files {
        var kek0 := CurrentKEK(Tier0);
        if kek0.None? {
          return None;
        }
      }
      var ok := PrepareTier0();
      if !ok {
        return None;
      }
      assert At(disk.files, LegacyMaster) == At(old(disk.files), LegacyMaster);
      plan := Some((legacy.value, kek.value));
    }

    /** Step 3d. */
    method TakeOver(legacy: Bytes, kek: Bytes) returns (ok: bool)
      requires Valid() && Master(Tier1) !in disk.files
      requires LegacyKey(disk.files) == Some(legacy) && |legacy| == KEY_SIZE && Gives(slot1, kek)
      modifies `cache1, disk
      ensures Valid() && Grows(old(disk.history), disk.history, slot0, slot1, {})
      ensures disk.reliable ==> ok
      ensures !ok ==> View() == old(View())
      ensures ok ==> TakenOver(disk.files) && cache1 == Some(legacy)
      ensures ok ==> SameBut(old(disk.files), disk.files, Master(Tier1))
      ensures ok ==> SealsUnder(At(disk.files, Master(Tier1)), kek, legacy)
    {
      hide Grows, Step;
      ok := WriteMaster(Tier1, legacy, kek);
      if ok {
        assert At(disk.files, LegacyMaster) == At(old(disk.files), LegacyMaster);
        assert At(disk.files, Master(Tier0)) == At(old(disk.files), Master(Tier0));
        cache1 := Some(legacy);
      }
    }

    /** Steps 3f and 3g: `.master` goes only after every legacy blob has its copy. That it cannot be
        removed is only a warning. */
    method RetireLegacyMaster() returns (ok: bool)
      requires Valid() && TakenOver(disk.files)
      requires SI in disk.files ==> Reseals(disk.files, At(disk.files, SI0))
      modifies disk
      ensures Valid() && Grows(old(disk.history), disk.history, slot0, slot1, {})
      ensures ok ==> LegacyMaster !in disk.files || AllHome(disk.files)
      ensures forall f :: !TouchedByMove(f) && f != LegacyMaster ==> At(disk.files, f) == At(old(disk.files), f)
      ensures disk.reliable ==>
        ok && LegacyMaster !in disk.files && BlobsMoved(old(disk.files), disk.files, {})
    {
      hide Grows, Step, KekGiven, Copied, Reseals, BlobsMoved, TakenOver;
      ghost var h0, a := disk.history, disk.files;
      ok := MoveBlobs();
      if !ok {
        return;
      }
      ghost var h1, b := disk.history, disk.files;
      AfterMove();
      StillResealed(a, b);
      hide TouchedByMove;
      var removed := disk.Remove(LegacyMaster, Author.Service);
      if removed {
        DropOfLegacyMasterIsStep(b, disk.files);
        GrowsByOne(h1, Moment(disk.files, LegacyMaster, Author.Service), slot0, slot1, {});
        GrowsOn(h0, h1, disk.history, slot0, slot1, {});
        if disk.reliable {
          BlobsMovedAmid(a, a, b, disk.files);
        }
      }
    }

    /** Steps 3e to 3h, with `.master-tier1` already in place. */
    method FinishMigration(legacy: Bytes)
      requires Valid() && TakenOver(disk.files) && LegacyKey(disk.files) == Some(legacy)
      modifies `migrationComplete, disk
      ensures Valid() && Grows(old(disk.history), disk.history, slot0, slot1, {})
      ensures migrationComplete ==> old(migrationComplete) || LegacyMaster !in disk.files || AllHome(disk.files)
      ensures disk.reliable ==> Finished(old(View()), View(), legacy)
    {
      hide Grows, Step, KekGiven, Reseals, AllHome;
      hide BlobsMoved, TouchedByMove, LegacyKey;
      ghost var h0, a := disk.history, disk.files;
      GrowsNot(h0, slot0, slot1, {});
      if SI in disk.files {
        if cache0.None? {
          return;
        }
        var moved := ResealSingleInstance(legacy, cache0.value);
        if moved.Fail? {
          return;
        }
      }
      ghost var h1, b := disk.history, disk.files;
      assert At(b, LegacyMaster) == At(a, LegacyMaster) && At(b, Master(Tier1)) == At(a, Master(Tier1));
      assert TakenOver(b) by { SameMasters(a, b); }
      var ok := RetireLegacyMaster();
      GrowsOn(h0, h1, disk.history, slot0, slot1, {});
      if !ok {
        return;
      }
      if disk.reliable {
        AfterMove();
        BlobsMovedAmid(a, b, disk.files, disk.files);
      }
      migrationComplete := true;
    }

    // -------------------------------------------------------------- wiring

    method SetKEKProviderTier0(provider: Option<Provider>)
      requires Valid()
      modifies `slot0, `cache0
      ensures Valid()
      ensures CleanStep(Wire(Tier0, provider), old(View()), View(), Acknowledged)
      ensures slot0 == provider && cache0.None?
    {
      slot0, cache0 := provider, None;
    }

    method SetKEKProvider(provider: Option<Provider>)
      requires Valid()
      modifies `slot1, `cache0, `cache1, `migrationComplete, disk
      ensures Valid() && Grows(old(disk.history), disk.history, slot0, slot1, {})
      ensures slot1 == provider
      ensures provider.None? || old(migrationComplete) ==>
        && cache1.None? && cache0 == old(cache0)
        && disk.files == old(disk.files) && migrationComplete == old(migrationComplete)
      ensures migrationComplete ==> old(migrationComplete) || LegacyMaster !in disk.files || AllHome(disk.files)
      ensures LegacyMaster !in old(disk.files) ==> disk.files == old(disk.files)
      ensures Clean() ==> CleanStep(Wire(Tier1, provider), old(View()), View(), Acknowledged)
    {
      GrowsNot(disk.history, slot0, slot1, {});
      hide Grows, Migrates;
      slot1, cache1 := provider, None;
      if provider.Some? && !migrationComplete {
        MigrateTier1();
      }
    }

    method ServiceShutdown()
      requires Valid()
      modifies `cache0, `cache1
      ensures Valid()
      ensures CleanStep(Shutdown, old(View()), View(), Acknowledged)
      ensures cache0.None? && cache1.None?
    {
      cache0, cache1 := None, None;
    }

    // -------------------------------------------------------------- put, get, has, delete, list

    method PutSealed(t: Tier, ref: string, plain: Bytes, master: Bytes) returns (r: Result<(), KeyError>)
      requires Valid()
      modifies disk
      ensures Valid() && Grows(old(disk.history), disk.history, slot0, slot1, {TierBlob(ref, t)})
      ensures SameBut(old(disk.files), disk.files, TierBlob(ref, t))
      ensures r.Ok? ==> Accepted(ref) && SealsUnder(At(disk.files, TierBlob(ref, t)), master, plain)
      ensures r.Fail? ==> disk.files == old(disk.files)
      ensures disk.reliable ==>
        r == if RefProblem(ref).Some? then Fail(BadRef(RefProblem(ref).value)) else Ok(())
    {
      GrowsNot(disk.history, slot0, slot1, {TierBlob(ref, t)});
      var file := KeyFile(ref, t);
      if file.Fail? {
        return Fail(file.error);
      }
      var blob := Seal(master, plain);
      var ok := disk.WriteFile(file.value, blob, Author.Caller);
      if !ok {
        return Fail(WriteFailed);
      }
      GrowsByOne(old(disk.history), Moment(disk.files, file.value, Author.Caller), slot0, slot1, {TierBlob(ref, t)});
      r := Ok(());
    }

    method GetTier(t: Tier, ref: string) returns (r: Result<Bytes, KeyError>)
      requires Valid()
      modifies `cache0, `cache1, disk
      ensures Valid() && Grows(old(disk.history), disk.history, slot0, slot1, {})
      ensures r.Ok? ==> Accepted(ref) && Cache(t).Some?
      ensures r.Ok? ==> SealsUnder(At(disk.files, TierBlob(ref, t)), Cache(t).value, r.value)
      ensures forall f :: f != Master(t) && (t == Tier0 ==> f != SI && f != SI0) ==>
        At(disk.files, f) == At(old(disk.files), f)
      ensures RefsOf(disk.files, Tier1) == old(RefsOf(disk.files, Tier1))
      ensures Clean() ==> Gets(t, ref, old(View()), View(), AnswerOf(r))
    {
      hide Grows, EnsuresMaster, RefProblem;
      var master := EnsureMaster(t);
      RefsUnchanged(old(disk.files), disk.files, Tier1);
      if master.Fail? {
        return Fail(master.error);
      }
      var file := KeyFile(ref, t);
      if file.Fail? {
        return Fail(file.error);
      }
      var read := disk.ReadFile(file.value);
      if read.None? {
        return Fail(ReadFailed);
      }
      var plain := Open(master.value, read.value);
      r := if plain.Some? then Ok(plain.value) else Fail(Undecryptable);
    }

    method HasTier(t: Tier, ref: string) returns (r: Result<bool, KeyError>)
      requires Valid()
      ensures r.Ok? <==> Accepted(ref)
      ensures r.Ok? ==> (r.value <==> TierBlob(ref, t) in disk.files)
      ensures CleanStep(Has(t, ref), View(), View(), if r.Ok? then Present(r.value) else Failed(r.error))
    {
      var file := KeyFile(ref, t);
      r := if file.Fail? then Fail(file.error) else Ok(file.value in disk.files);
    }

    /** The refs come in some order, each once. */
    method ListTier(t: Tier) returns (r: Option<seq<string>>)
      requires Valid()
      ensures disk.reliable ==> r.Some?
      ensures r.Some? ==> forall i, j :: 0 <= i < j < |r.value| ==> r.value[i] != r.value[j]
      ensures r.Some? ==> forall ref :: ref in r.value <==> TierBlob(ref, t) in disk.files
      ensures r.Some? ==> CleanStep(List(t), View(), View(), Refs(set ref | ref in r.value))
    {
      var ok := disk.Chance();
      if !ok {
        return None;
      }
      var entries, out := disk.files.Keys, [];
      while entries != {}
        invariant entries <= disk.files.Keys
        invariant forall i, j :: 0 <= i < j < |out| ==> out[i] != out[j]
        invariant forall ref :: ref in out <==> TierBlob(ref, t) in disk.files && TierBlob(ref, t) !in entries
      {
        var f :| f in entries;
        entries := entries - {f};
        if f.TierBlob? && f.tier == t {
          out := out + [f.ref];
        }
      }
      r := Some(out);
      assert (set ref | ref in out) == RefsOf(disk.files, t);
    }

    // -------------------------------------------------------------- mutations, with their audit rows

    ghost function TrailNow(): Trail
      reads this, disk
    {
      Trail(RefsOf(disk.files, Tier1), rows, bus)
    }

    /** The recorder's code for a failure is never blank. */
    ghost predicate FailuresMarked()
    {
      forall e :: errorCode(e) != ""
    }

    function CodeOf<T>(r: Result<T, KeyError>): string {
      if r.Ok? then "" else errorCode(r.error)
    }

    function AnswerOf(r: Result<Bytes, KeyError>): Answer {
      if r.Ok? then Found(r.value) else Failed(r.error)
    }

    method EmitAudit(event: AuditEvent, ref: string, source: Source, code: string)
      modifies `rows
      ensures rows == old(rows) + [AuditRow(event, ref, source, code)]
    {
      rows := rows + [AuditRow(event, ref, source, code)];
    }

    /** What putTier0WithSource and putTier1WithSource share: the master, whether the ref was there
        before the write, and the write. */
    method StoreTier(t: Tier, ref: string, plain: Bytes) returns (r: Result<(), KeyError>, wasPresent: bool)
      requires Valid()
      modifies `cache0, `cache1, disk
      ensures Valid() && Grows(old(disk.history), disk.history, slot0, slot1, {TierBlob(ref, t)})
      ensures r.Ok? ==> Cache(t).Some? && SealsUnder(At(disk.files, TierBlob(ref, t)), Cache(t).value, plain)
      ensures r.Fail? && !(t == Tier0 && ref == SINGLE_INSTANCE) ==>
        At(disk.files, TierBlob(ref, t)) == At(old(disk.files), TierBlob(ref, t))
      ensures RefsOf(disk.files, Tier1) == old(RefsOf(disk.files, Tier1)) + if r.Ok? && t == Tier1 then {ref} else {}
      ensures t == Tier1 ==> (wasPresent <==> Accepted(ref) && TierBlob(ref, Tier1) in old(disk.files))
      ensures r.Ok? && t == Tier1 ==> (wasPresent <==> ref in old(RefsOf(disk.files, Tier1)))
      ensures Clean() ==>
        Stores(t, ref, plain, old(View()), View(), if r.Ok? then Acknowledged else Failed(r.error))
    {
      hide Grows, EnsuresMaster, Stores, RefsOf, RefProblem;
      ghost var h0, touch := disk.history, {TierBlob(ref, t)};
      var master := EnsureMaster(t);
      GrowsWider(h0, disk.history, slot0, slot1, {}, touch);
      RefsUnchanged(old(disk.files), disk.files, Tier1);
      RefsMember(old(disk.files), ref, Tier1);
      RefsMember(disk.files, ref, Tier1);
      var has := HasTier(t, ref);
      wasPresent := has.Ok? && has.value;
      ghost var h, u := disk.history, View();
      if master.Fail? {
        r := Fail(master.error);
      } else {
        r := PutSealed(t, ref, plain, master.value);
        GrowsOn(h0, h, disk.history, slot0, slot1, touch);
      }
      RefsAfter(u.files, disk.files, ref, t, Tier1);
      if Clean() {
        StoresBy(t, ref, plain, old(View()), u, View(), master, if r.Ok? then Acknowledged else Failed(r.error));
      }
    }

    method PutTier0(ref: string, plain: Bytes, source: Source) returns (r: Result<(), KeyError>)
      requires Valid()
      modifies `cache0, `cache1, `rows, disk
      ensures Valid() && Grows(old(disk.history), disk.history, slot0, slot1, {TierBlob(ref, Tier0)})
      ensures r.Ok? ==> cache0.Some? && SealsUnder(At(disk.files, TierBlob(ref, Tier0)), cache0.value, plain)
      ensures r.Fail? && ref != SINGLE_INSTANCE ==>
        At(disk.files, TierBlob(ref, Tier0)) == At(old(disk.files), TierBlob(ref, Tier0))
      ensures rows == old(rows) + [AuditRow(Tier0Stored, ref, source, CodeOf(r))]
      ensures FailuresMarked() ==> Recorded(old(TrailNow()), TrailNow())
      ensures Clean() ==>
        Stores(Tier0, ref, plain, old(View()), View(), if r.Ok? then Acknowledged else Failed(r.error))
    {
      hide Grows, Stores, RefsOf, Recorded;
      ghost var a := TrailNow();
      var wasPresent;
      r, wasPresent := StoreTier(Tier0, ref, plain);
      EmitAudit(Tier0Stored, ref, source, CodeOf(r));
      RecordedBy(a, TrailNow(), rows[|rows| - 1]);
    }

    method PutTier1(ref: string, plain: Bytes, source: Source) returns (r: Result<(), KeyError>)
      requires Valid()
      modifies `cache0, `cache1, `rows, `bus, disk
      ensures Valid() && Grows(old(disk.history), disk.history, slot0, slot1, {TierBlob(ref, Tier1)})
      ensures r.Ok? ==> cache1.Some? && SealsUnder(At(disk.files, TierBlob(ref, Tier1)), cache1.value, plain)
      ensures r.Fail? ==> At(disk.files, TierBlob(ref, Tier1)) == At(old(disk.files), TierBlob(ref, Tier1))
      ensures var overwrites := Accepted(ref) && TierBlob(ref, Tier1) in old(disk.files);
        && rows == old(rows) + [AuditRow(if overwrites then Tier1Replaced else Tier1Stored, ref, source, CodeOf(r))]
        && bus == old(bus) + if overwrites && r.Ok? then [KeyReplaced(ref)] else []
      ensures FailuresMarked() ==> Recorded(old(TrailNow()), TrailNow())
      ensures Clean() ==>
        Stores(Tier1, ref, plain, old(View()), View(), if r.Ok? then Acknowledged else Failed(r.error))
    {
      hide Grows, Stores, RefsOf, Recorded;
      ghost var a := TrailNow();
      var wasPresent;
      r, wasPresent := StoreTier(Tier1, ref, plain);
      var event := if wasPresent then Tier1Replaced else Tier1Stored;
      if r.Ok? && wasPresent {
        bus := bus + [KeyReplaced(ref)];
      }
      EmitAudit(event, ref, source, CodeOf(r));
      if FailuresMarked() {
        RecordedBy(a, TrailNow(), rows[|rows| - 1]);
      }
    }

    /** Removing a blob that is there; `removed` says whether there was a removal to record. */
    method RemoveTier(t: Tier, ref: string) returns (r: Result<(), KeyError>, removed: bool)
      requires Valid()
      modifies disk
      ensures Valid() && Grows(old(disk.history), disk.history, slot0, slot1, {TierBlob(ref, t)})
      ensures r.Ok? ==> TierBlob(ref, t) !in disk.files
      ensures RefsOf(disk.files, Tier1) == old(RefsOf(disk.files, Tier1)) - if removed && t == Tier1 then {ref} else {}
      ensures removed <==> r.Ok? && TierBlob(ref, t) in old(disk.files)
      ensures removed && t == Tier1 ==> ref in old(RefsOf(disk.files, Tier1))
      ensures disk.reliable ==>
        CleanStep(Delete(t, ref), old(View()), View(), if r.Ok? then Acknowledged else Failed(r.error))
    {
      GrowsNot(disk.history, slot0, slot1, {TierBlob(ref, t)});
      hide Grows, Step, RefsOf, RefProblem;
      removed := false;
      var file := KeyFile(ref, t);
      if file.Fail? {
        return Fail(file.error), false;
      }
      RefsMember(disk.files, ref, t);
      if file.value !in disk.files {
        assert disk.files == disk.files - {file.value};
        return Ok(()), false;
      }
      removed := disk.Remove(file.value, Author.Caller);
      if !removed {
        return Fail(RemoveFailed), false;
      }
      CallerRemovalIsStep(old(disk.files), disk.files, file.value);
      GrowsByOne(old(disk.history), Moment(disk.files, file.value, Author.Caller), slot0, slot1, {file.value});
      RefsAfter(old(disk.files), disk.files, ref, t, Tier1);
      r := Ok(());
    }

    /** The two per-tier deletions; only tier 1 broadcasts. Deleting what is absent is silent. */
    method DeleteTier(t: Tier, ref: string, source: Source) returns (r: Result<(), KeyError>)
      requires Valid()
      modifies `rows, `bus, disk
      ensures Valid() && Grows(old(disk.history), disk.history, slot0, slot1, {TierBlob(ref, t)})
      ensures r.Ok? ==> TierBlob(ref, t) !in disk.files
      ensures var silent := r.Ok? && TierBlob(ref, t) !in old(disk.files);
        && rows == old(rows) + (if silent then []
             else [AuditRow(if t == Tier0 then Tier0Deleted else Tier1Deleted, ref, source, CodeOf(r))])
        && bus == old(bus) + if t == Tier1 && r.Ok? && !silent then [KeyDeleted(ref)] else []
      ensures FailuresMarked() ==> Recorded(old(TrailNow()), TrailNow())
      ensures disk.reliable ==>
        CleanStep(Delete(t, ref), old(View()), View(), if r.Ok? then Acknowledged else Failed(r.error))
    {
      hide Grows, CleanStep, RefsOf, Recorded;
      ghost var a := TrailNow();
      var event := if t == Tier0 then Tier0Deleted else Tier1Deleted;
      var removed;
      r, removed := RemoveTier(t, ref);
      if r.Ok? && !removed {
        assert TrailNow().refs == a.refs;
        NothingRecorded(a);
        return;
      }
      if removed && t == Tier1 {
        bus := bus + [KeyDeleted(ref)];
      }
      EmitAudit(event, ref, source, CodeOf(r));
      if FailuresMarked() {
        RecordedBy(a, TrailNow(), rows[|rows| - 1]);
      }
    }

    /** getOrCreate by one caller at a time: what comes back is what the store now holds. */
    method GetOrCreate(t: Tier, ref: string, generated: Option<Bytes>) returns (r: Result<Bytes, KeyError>)
      requires Valid()
      modifies `cache0, `cache1, `rows, `bus, disk
      ensures Valid() && Grows(old(disk.history), disk.history, slot0, slot1, {TierBlob(ref, t)})
      ensures r.Ok? ==> Cache(t).Some? && SealsUnder(At(disk.files, TierBlob(ref, t)), Cache(t).value, r.value)
      ensures !(t == Tier0 && ref == SINGLE_INSTANCE) ==>
        || At(disk.files, TierBlob(ref, t)) == At(old(disk.files), TierBlob(ref, t))
        || (r.Ok? && generated == Some(r.value))
      ensures FailuresMarked() ==> Recorded(old(TrailNow()), TrailNow())
      ensures Clean() ==> GetsOrCreates(t, ref, generated, old(View()), View(), AnswerOf(r))
    {
      hide Grows, Recorded, RefsOf, RefProblem, Gets, Stores;
      ghost var h0, a, touch, v := disk.history, TrailNow(), {TierBlob(ref, t)}, View();
      r := GetTier(t, ref);
      GrowsWider(h0, disk.history, slot0, slot1, {}, touch);
      NothingRecorded(a);
      ghost var h1, u, first := disk.history, View(), AnswerOf(r);
      if r.Ok? {
        if Clean() {
          GetsOrCreatesBy(t, ref, generated, v, u, u, u, first, first, first);
        }
        return;
      }
      r := GetTier(t, ref);
      GrowsWider(h1, disk.history, slot0, slot1, {}, touch);
      GrowsOn(h0, h1, disk.history, slot0, slot1, touch);
      ghost var h2, u', second := disk.history, View(), AnswerOf(r);
      if r.Ok? || generated.None? {
        r := if r.Ok? then r else Fail(GenerateFailed);
        if Clean() {
          GetsOrCreatesBy(t, ref, generated, v, u, u', u', first, second, AnswerOf(r));
        }
        return;
      }
      var stored;
      if t == Tier0 {
        stored := PutTier0(ref, generated.value, Internal);
      } else {
        stored := PutTier1(ref, generated.value, Internal);
      }
      GrowsOn(h0, h2, disk.history, slot0, slot1, touch);
      r := if stored.Ok? then Ok(generated.value) else Fail(stored.error);
      if Clean() {
        GetsOrCreatesBy(t, ref, generated, v, u, u', View(), first, second, AnswerOf(r));
      }
    }
  }
}
