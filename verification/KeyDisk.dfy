/** The sealed directory of go/keys/service.go: an ideal AEAD, KEK providers, a disk whose every
    operation may fail, and the changes the service may make to it, one file at a time. */
module KeyDisk {
  import opened Wrappers
  import opened KeyFiles

  // ---------------------------------------------------------------- sealed blobs

  const KEY_SIZE: nat := 32
  const WRAPPED_LEN: nat := 24 + KEY_SIZE + 16

  /** The contents of a file. Sealing is ideal: only the sealing key opens, and it opens to what
      was sealed. On disk a sealed blob is a 24-byte nonce, the ciphertext and a 16-byte tag. */
  datatype Blob = Raw(bytes: Bytes) | Sealed(key: Bytes, nonce: nat, plain: Bytes) {
    function Length(): nat {
      match this
      case Raw(bytes) => |bytes|
      case Sealed(_, _, plain) => 24 + |plain| + 16
    }
  }

  function Open(key: Bytes, b: Blob): Option<Bytes> {
    if b.Sealed? && b.key == key then Some(b.plain) else None
  }

  /** What a KEK makes of a stored master: nothing unless the file has the wrapped length. */
  function Unwrap(kek: Bytes, b: Blob): Option<Bytes> {
    if b.Length() == WRAPPED_LEN then Open(kek, b) else None
  }

  // ---------------------------------------------------------------- KEK providers

  /** A provider, by the answers it may give when asked; it may answer differently each time. */
  type Provider = answers: set<Option<Bytes>> | answers != {} witness {None}

  /** A KEK of the wrong length counts as none. */
  function Usable(answer: Option<Bytes>): Option<Bytes> {
    if answer.Some? && |answer.value| == KEY_SIZE then answer else None
  }

  ghost predicate Steady(slot: Option<Provider>) {
    slot.Some? ==> forall a, b :: a in slot.value && b in slot.value ==> Usable(a) == Usable(b)
  }

  /** The one answer of a steady slot; nothing when no provider is wired. */
  ghost function Reply(slot: Option<Provider>): Option<Bytes> {
    if slot.None? then None else var a :| a in slot.value; Usable(a)
  }

  predicate Gives(slot: Option<Provider>, kek: Bytes) {
    slot.Some? && Some(kek) in slot.value && |kek| == KEY_SIZE
  }

  // ---------------------------------------------------------------- the directory

  type Files = map<File, Blob>

  function At(files: Files, f: File): Option<Blob> {
    if f in files then Some(files[f]) else None
  }

  ghost predicate SameBut(a: Files, b: Files, f: File) {
    forall g :: g != f ==> At(a, g) == At(b, g)
  }

  predicate SealsUnder(b: Option<Blob>, key: Bytes, plain: Bytes) {
    b.Some? && b.value.Sealed? && b.value.key == key && b.value.plain == plain
  }

  function PlainOf(b: Option<Blob>): Option<Bytes> {
    if b.Some? && b.value.Sealed? then Some(b.value.plain) else None
  }

  /** The master that a legacy `.master` file holds: its bytes when raw, its contents when wrapped. */
  function LegacyKey(files: Files): Option<Bytes> {
    match At(files, LegacyMaster)
    case None => None
    case Some(Raw(bytes)) => if |bytes| == KEY_SIZE then Some(bytes) else None
    case Some(Sealed(_, _, plain)) => if |plain| == KEY_SIZE then Some(plain) else None
  }

  const SI: File := LegacyBlob(SINGLE_INSTANCE)
  const SI0: File := TierBlob(SINGLE_INSTANCE, Tier0)

  // ---------------------------------------------------------------- one change at a time

  datatype Author = Caller | Service

  /** The directory just after one write or removal, the file it touched and on whose behalf. */
  datatype Moment = Moment(files: Files, file: File, author: Author)

  /** `.master-tier1` holds the very key of the legacy master. */
  predicate TakenOver(a: Files) {
    LegacyKey(a).Some? && PlainOf(At(a, Master(Tier1))) == LegacyKey(a)
  }

  /** `b` seals, under the stored tier-0 master, what the legacy single-instance blob holds. */
  predicate Reseals(a: Files, b: Option<Blob>) {
    && LegacyKey(a).Some? && SI in a && Open(LegacyKey(a).value, a[SI]).Some?
    && PlainOf(At(a, Master(Tier0))).Some?
    && SealsUnder(b, PlainOf(At(a, Master(Tier0))).value, Open(LegacyKey(a).value, a[SI]).value)
  }

  /** Every legacy blob outside `left`, the single instance's aside, has its copy in tier 1. */
  ghost predicate Copied(a: Files, left: set<File>) {
    forall ref :: ref != SINGLE_INSTANCE && LegacyBlob(ref) in a && LegacyBlob(ref) !in left ==>
      At(a, TierBlob(ref, Tier1)) == At(a, LegacyBlob(ref))
  }

  /** Nothing hangs on the legacy master any more: what lies under a legacy name lies at home too. */
  ghost predicate AllHome(a: Files) {
    TakenOver(a) && Copied(a, {}) && (SI in a ==> Reseals(a, At(a, SI0)))
  }

  /** The single changes the service makes to a directory `a`, each with what makes it harmless. */
  ghost predicate Step(a: Files, m: Moment) {
    var b := m.files;
    && SameBut(a, b, m.file)
    && match m.author
       case Caller => m.file.TierBlob? && Accepted(m.file.ref)
       case Service =>
         match m.file
         case Master(t) =>
           m.file !in a && PlainOf(At(b, m.file)).Some? && |PlainOf(At(b, m.file)).value| == KEY_SIZE
         case TierBlob(ref, t) =>
           if t == Tier1 then
             ref != SINGLE_INSTANCE && TakenOver(a) && LegacyBlob(ref) in a
             && At(b, m.file) == At(a, LegacyBlob(ref))
           else ref == SINGLE_INSTANCE && Reseals(a, At(b, m.file))
         case LegacyBlob(ref) =>
           m.file !in b &&
           if ref == SINGLE_INSTANCE then Reseals(a, At(a, SI0))
           else TakenOver(a) && m.file in a && At(a, TierBlob(ref, Tier1)) == At(a, m.file)
         case LegacyMaster => m.file !in b && AllHome(a)
         case Other(_) => false
  }

  lemma ResealIsStep(a: Files, b: Files)
    requires SameBut(a, b, SI0) && Reseals(a, At(b, SI0))
    ensures Step(a, Moment(b, SI0, Service))
  {
  }

  lemma MakesReseal(a: Files, b: Option<Blob>, legacy: Bytes, m0: Bytes)
    requires LegacyKey(a) == Some(legacy) && PlainOf(At(a, Master(Tier0))) == Some(m0)
    requires SI in a && Open(legacy, a[SI]).Some? && SealsUnder(b, m0, Open(legacy, a[SI]).value)
    ensures Reseals(a, b)
  {
  }

  /** Writing the resealed blob does not touch what it is resealed from. */
  lemma ResealsStill(a: Files, b: Files, blob: Option<Blob>)
    requires Reseals(a, blob) && SameBut(a, b, SI0)
    ensures Reseals(b, blob)
  {
    assert At(b, SI) == At(a, SI) && At(b, LegacyMaster) == At(a, LegacyMaster);
    assert At(b, Master(Tier0)) == At(a, Master(Tier0));
  }

  lemma DropOfResealedIsStep(a: Files, b: Files)
    requires SameBut(a, b, SI) && SI !in b && Reseals(a, At(a, SI0))
    ensures Step(a, Moment(b, SI, Service))
  {
  }

  lemma CallerRemovalIsStep(a: Files, b: Files, f: File)
    requires f.TierBlob? && Accepted(f.ref) && SameBut(a, b, f)
    ensures Step(a, Moment(b, f, Caller))
  {
  }

  lemma MoveIsStep(a: Files, b: Files, ref: string)
    requires ref != SINGLE_INSTANCE && LegacyBlob(ref) in a && TakenOver(a)
    requires SameBut(a, b, TierBlob(ref, Tier1)) && At(b, TierBlob(ref, Tier1)) == At(a, LegacyBlob(ref))
    ensures Step(a, Moment(b, TierBlob(ref, Tier1), Service)) && TakenOver(b)
  {
    assert At(b, LegacyMaster) == At(a, LegacyMaster) && At(b, Master(Tier1)) == At(a, Master(Tier1));
  }

  lemma DropOfMovedIsStep(a: Files, b: Files, ref: string)
    requires ref != SINGLE_INSTANCE && LegacyBlob(ref) in a && TakenOver(a)
    requires SameBut(a, b, LegacyBlob(ref)) && LegacyBlob(ref) !in b
    requires At(a, TierBlob(ref, Tier1)) == At(a, LegacyBlob(ref))
    ensures Step(a, Moment(b, LegacyBlob(ref), Service)) && TakenOver(b)
  {
    assert At(b, LegacyMaster) == At(a, LegacyMaster) && At(b, Master(Tier1)) == At(a, Master(Tier1));
  }

  lemma NothingCopiedYet(a: Files)
    ensures Copied(a, a.Keys)
  {
  }

  lemma NothingToCopy(a: Files, f: File, left: set<File>)
    requires Copied(a, left + {f}) && !(f.LegacyBlob? && f.ref != SINGLE_INSTANCE)
    ensures Copied(a, left)
  {
  }

  /** One blob copied, its original gone or not. */
  lemma CopiedNext(a: Files, b: Files, ref: string, left: set<File>)
    requires Copied(a, left + {LegacyBlob(ref)})
    requires forall f :: f != LegacyBlob(ref) && f != TierBlob(ref, Tier1) ==> At(b, f) == At(a, f)
    requires LegacyBlob(ref) in b ==> At(b, TierBlob(ref, Tier1)) == At(b, LegacyBlob(ref))
    ensures Copied(b, left)
  {
    forall r | r != SINGLE_INSTANCE && LegacyBlob(r) in b && LegacyBlob(r) !in left
      ensures At(b, TierBlob(r, Tier1)) == At(b, LegacyBlob(r))
    {
      if r != ref {
        assert At(b, LegacyBlob(r)) == At(a, LegacyBlob(r)) && At(b, TierBlob(r, Tier1)) == At(a, TierBlob(r, Tier1));
      }
    }
  }

  /** The single instance stays resealed while other files change. */
  lemma StillResealed(a: Files, b: Files)
    requires SI in a ==> Reseals(a, At(a, SI0))
    requires forall f :: f == SI || f == SI0 || f == LegacyMaster || f == Master(Tier0) ==> At(b, f) == At(a, f)
    ensures SI in b ==> Reseals(b, At(b, SI0))
  {
    assert At(b, SI) == At(a, SI) && At(b, SI0) == At(a, SI0);
    assert At(b, LegacyMaster) == At(a, LegacyMaster) && At(b, Master(Tier0)) == At(a, Master(Tier0));
  }

  lemma DropOfLegacyMasterIsStep(a: Files, b: Files)
    requires AllHome(a) && SameBut(a, b, LegacyMaster) && LegacyMaster !in b
    ensures Step(a, Moment(b, LegacyMaster, Service))
  {
  }

  /** A master file is only ever sealed under a KEK that the tier's provider gave. */
  predicate KekGiven(m: Moment, slot0: Option<Provider>, slot1: Option<Provider>) {
    m.file.Master? && m.file in m.files && m.files[m.file].Sealed? ==>
      Gives(if m.file.tier == Tier0 then slot0 else slot1, m.files[m.file].key)
  }

  /** `h'` prolongs the history `h` by allowed changes only, a caller's only to the files in `touch`. */
  ghost predicate Grows(h: seq<Moment>, h': seq<Moment>, slot0: Option<Provider>, slot1: Option<Provider>,
                        touch: set<File>) {
    && 1 <= |h| <= |h'| && h <= h'
    && forall i :: |h| <= i < |h'| ==>
         && Step(h'[i - 1].files, h'[i])
         && KekGiven(h'[i], slot0, slot1)
         && (h'[i].author == Caller ==> h'[i].file in touch)
  }

  lemma GrowsNot(h: seq<Moment>, slot0: Option<Provider>, slot1: Option<Provider>, touch: set<File>)
    requires h != []
    ensures Grows(h, h, slot0, slot1, touch)
  {
  }

  lemma GrowsOn(h: seq<Moment>, h': seq<Moment>, h'': seq<Moment>,
                slot0: Option<Provider>, slot1: Option<Provider>, touch: set<File>)
    requires Grows(h, h', slot0, slot1, touch) && Grows(h', h'', slot0, slot1, touch)
    ensures Grows(h, h'', slot0, slot1, touch)
  {
    forall i | |h| <= i < |h''|
      ensures Step(h''[i - 1].files, h''[i]) && KekGiven(h''[i], slot0, slot1)
      ensures h''[i].author == Caller ==> h''[i].file in touch
    {
      if i < |h'| {
        assert h''[i] == h'[i] && h''[i - 1] == h'[i - 1];
      }
    }
  }

  lemma GrowsWider(h: seq<Moment>, h': seq<Moment>, slot0: Option<Provider>, slot1: Option<Provider>,
                   touch: set<File>, wider: set<File>)
    requires Grows(h, h', slot0, slot1, touch) && touch <= wider
    ensures Grows(h, h', slot0, slot1, wider)
  {
  }

  /** A directory on a disk. A reliable disk never fails; on any other, every operation may.
      A process that stops is a disk that fails from some operation on. */
  class Disk {
    const reliable: bool
    var files: Files
    ghost var history: seq<Moment>

    ghost predicate Valid()
      reads this
    {
      history != [] && history[|history| - 1].files == files
    }

    constructor (files: Files, reliable: bool)
      ensures Valid() && this.files == files && this.reliable == reliable
      ensures |history| == 1
    {
      this.files, this.reliable := files, reliable;
      history := [Moment(files, LegacyMaster, Service)];
    }

    method Chance() returns (ok: bool)
      ensures reliable ==> ok
    {
      if reliable {
        ok := true;
      } else {
        ok := *;
      }
    }

    method ReadFile(f: File) returns (r: Option<Blob>)
      ensures r.Some? ==> f in files && r.value == files[f]
      ensures reliable ==> r == At(files, f)
    {
      var ok := Chance();
      r := if ok then At(files, f) else None;
    }

    method WriteFile(f: File, blob: Blob, ghost author: Author) returns (ok: bool)
      requires Valid()
      modifies this
      ensures Valid()
      ensures reliable ==> ok
      ensures if ok then files == old(files)[f := blob] && history == old(history) + [Moment(files, f, author)]
              else files == old(files) && history == old(history)
    {
      ok := Chance();
      if ok {
        files := files[f := blob];
        history := history + [Moment(files, f, author)];
      }
    }

    method Remove(f: File, ghost author: Author) returns (ok: bool)
      requires Valid()
      modifies this
      ensures Valid()
      ensures ok ==> f in old(files)
      ensures reliable ==> ok == (f in old(files))
      ensures if ok then files == old(files) - {f} && history == old(history) + [Moment(files, f, author)]
              else files == old(files) && history == old(history)
    {
      ok := Chance();
      ok := ok && f in files;
      if ok {
        files := files - {f};
        history := history + [Moment(files, f, author)];
      }
    }
  }

  /** What one change adds to a history. */
  lemma GrowsByOne(h: seq<Moment>, m: Moment, slot0: Option<Provider>, slot1: Option<Provider>, touch: set<File>)
    requires h != [] && Step(h[|h| - 1].files, m) && KekGiven(m, slot0, slot1)
    requires m.author == Caller ==> m.file in touch
    ensures Grows(h, h + [m], slot0, slot1, touch)
  {
  }
}
