/** File names of the keys directory (go/keys/service.go): what a name means by its suffix, which
    refs `keyPath` accepts, and why no two accepted refs, masters or legacy blobs share a name. */
module KeyFiles {
  import opened Wrappers

  datatype Tier = Tier0 | Tier1

  const SINGLE_INSTANCE: string := "single-instance"

  /** A name of the directory, read by its suffix: `.master`, `.master-tierN`, `REF.tN.aead`,
      any other `REF.aead`, or something the service never looks at. */
  datatype File =
    | LegacyMaster
    | Master(tier: Tier)
    | TierBlob(ref: string, tier: Tier)
    | LegacyBlob(ref: string)
    | Other(name: string)

  const LEGACY_MASTER: string := ".master"
  const AEAD: string := ".aead"

  function MasterName(t: Tier): string {
    if t == Tier0 then ".master-tier0" else ".master-tier1"
  }

  /** `.t0` and `.t1`: with `.aead` behind them, the two blob suffixes. */
  function TierMark(t: Tier): string {
    if t == Tier0 then ".t0" else ".t1"
  }

  predicate HasSuffix(s: string, suffix: string) {
    |s| >= |suffix| && s[|s| - |suffix|..] == suffix
  }

  function Strip(s: string, suffix: string): string
    requires HasSuffix(s, suffix)
  {
    s[..|s| - |suffix|]
  }

  function FileName(f: File): string {
    match f
    case LegacyMaster => LEGACY_MASTER
    case Master(t) => MasterName(t)
    case TierBlob(ref, t) => ref + TierMark(t) + AEAD
    case LegacyBlob(ref) => ref + AEAD
    case Other(name) => name
  }

  function Classify(name: string): File {
    if name == LEGACY_MASTER then LegacyMaster
    else if name == MasterName(Tier0) then Master(Tier0)
    else if name == MasterName(Tier1) then Master(Tier1)
    else if HasSuffix(name, AEAD) then ClassifyBlob(Strip(name, AEAD))
    else Other(name)
  }

  function ClassifyBlob(stem: string): File {
    if HasSuffix(stem, TierMark(Tier0)) then TierBlob(Strip(stem, TierMark(Tier0)), Tier0)
    else if HasSuffix(stem, TierMark(Tier1)) then TierBlob(Strip(stem, TierMark(Tier1)), Tier1)
    else LegacyBlob(stem)
  }

  /** The files that are some name's reading: a legacy stem carries no tier mark, and `Other`
      holds only names that mean nothing else. */
  predicate Proper(f: File) {
    match f
    case LegacyBlob(ref) => !HasSuffix(ref, TierMark(Tier0)) && !HasSuffix(ref, TierMark(Tier1))
    case Other(name) =>
      && name != LEGACY_MASTER && name != MasterName(Tier0) && name != MasterName(Tier1)
      && !HasSuffix(name, AEAD)
    case _ => true
  }

  lemma SuffixAppended(s: string, suffix: string)
    ensures HasSuffix(s + suffix, suffix) && Strip(s + suffix, suffix) == s
  {
  }

  lemma SuffixStripped(s: string, suffix: string)
    requires HasSuffix(s, suffix)
    ensures Strip(s, suffix) + suffix == s
  {
  }

  lemma LastOfSuffix(s: string, suffix: string)
    ensures HasSuffix(s, suffix) && suffix != "" ==> s != "" && s[|s| - 1] == suffix[|suffix| - 1]
  {
    if HasSuffix(s, suffix) && suffix != "" {
      assert s[|s| - |suffix|..][|suffix| - 1] == s[|s| - 1];
    }
  }

  lemma MastersAreNotBlobs()
    ensures !HasSuffix(LEGACY_MASTER, AEAD)
    ensures forall t :: !HasSuffix(MasterName(t), AEAD) && MasterName(t) != LEGACY_MASTER
    ensures MasterName(Tier0) != MasterName(Tier1)
  {
    assert AEAD[|AEAD| - 1] == 'd' && LEGACY_MASTER[|LEGACY_MASTER| - 1] == 'r';
    assert MasterName(Tier0)[12] == '0' && MasterName(Tier1)[12] == '1';
    LastOfSuffix(LEGACY_MASTER, AEAD);
    LastOfSuffix(MasterName(Tier0), AEAD);
    LastOfSuffix(MasterName(Tier1), AEAD);
    forall t
      ensures !HasSuffix(MasterName(t), AEAD)
    {
      assert t == Tier0 || t == Tier1;
    }
  }

  lemma TierMarksDiffer(ref: string)
    ensures !HasSuffix(ref + TierMark(Tier1), TierMark(Tier0))
  {
    assert TierMark(Tier0)[2] == '0' && TierMark(Tier1)[2] == '1';
    LastOfSuffix(ref + TierMark(Tier1), TierMark(Tier0));
  }

  lemma NameOfStem(stem: string)
    ensures FileName(ClassifyBlob(stem)) == stem + AEAD && Proper(ClassifyBlob(stem))
  {
    hide TierMark, AEAD, HasSuffix;
    if HasSuffix(stem, TierMark(Tier0)) {
      SuffixStripped(stem, TierMark(Tier0));
    } else if HasSuffix(stem, TierMark(Tier1)) {
      SuffixStripped(stem, TierMark(Tier1));
    }
  }

  lemma ReadingOfBlob(name: string)
    requires HasSuffix(name, AEAD)
    ensures Classify(name) == ClassifyBlob(Strip(name, AEAD))
  {
    MastersAreNotBlobs();
    hide MasterName, ClassifyBlob, HasSuffix, LEGACY_MASTER, AEAD;
  }

  /** Names and readings correspond one to one, so a directory may be described by readings. */
  lemma NameOfReading(name: string)
    ensures FileName(Classify(name)) == name && Proper(Classify(name))
  {
    if name == LEGACY_MASTER {
    } else if name == MasterName(Tier0) || name == MasterName(Tier1) {
      hide HasSuffix, ClassifyBlob;
    } else if HasSuffix(name, AEAD) {
      SuffixStripped(name, AEAD);
      NameOfStem(Strip(name, AEAD));
      hide *;
      ReadingOfBlob(name);
    } else {
      hide ClassifyBlob;
    }
  }

  lemma StemOfTierBlob(ref: string, t: Tier)
    ensures ClassifyBlob(ref + TierMark(t)) == TierBlob(ref, t)
  {
    SuffixAppended(ref, TierMark(t));
    if t == Tier1 {
      TierMarksDiffer(ref);
    }
  }

  lemma ReadingOfStem(stem: string)
    ensures Classify(stem + AEAD) == ClassifyBlob(stem)
  {
    MastersAreNotBlobs();
    SuffixAppended(stem, AEAD);
    hide MasterName, ClassifyBlob, LEGACY_MASTER, AEAD;
    assert stem + AEAD != MasterName(Tier0) && stem + AEAD != MasterName(Tier1);
  }

  lemma ReadingOfMasterName(t: Tier)
    ensures Classify(MasterName(t)) == Master(t)
  {
    MastersAreNotBlobs();
    hide HasSuffix, ClassifyBlob;
    if t == Tier1 {
      assert MasterName(t) == MasterName(Tier1);
    } else {
      assert MasterName(t) == MasterName(Tier0);
    }
  }

  lemma ReadingOfName(f: File)
    requires Proper(f)
    ensures Classify(FileName(f)) == f
  {
    if f.TierBlob? {
      ReadingOfStem(f.ref + TierMark(f.tier));
      StemOfTierBlob(f.ref, f.tier);
    } else if f.LegacyBlob? {
      ReadingOfStem(f.ref);
    } else if f.Master? {
      ReadingOfMasterName(f.tier);
    } else {
      hide MasterName, ClassifyBlob;
    }
  }

  // ---------------------------------------------------------------- refs

  datatype RefError = EmptyRef | SeparatorOrDot | NulByte | ReservedSuffix

  /** hasTierSuffix: the ref ends in `.tN.aead` for a digit N. */
  predicate HasTierSuffix(ref: string) {
    HasSuffix(ref, AEAD) &&
    var rem := Strip(ref, AEAD);
    |rem| >= 3 && rem[|rem| - 3] == '.' && rem[|rem| - 2] == 't' && '0' <= rem[|rem| - 1] <= '9'
  }

  /** The checks that `keyPath` makes on a ref. */
  function RefProblem(ref: string): Option<RefError> {
    if ref == "" then Some(EmptyRef)
    else if '/' in ref || '\\' in ref || ref[0] == '.' then Some(SeparatorOrDot)
    else if '\0' in ref then Some(NulByte)
    else if HasTierSuffix(ref) then Some(ReservedSuffix)
    else None
  }

  predicate Accepted(ref: string) {
    RefProblem(ref).None?
  }

  function BlobSuffix(t: Tier): string {
    TierMark(t) + AEAD
  }

  function KeyPath(ref: string, t: Tier): Result<string, RefError> {
    match RefProblem(ref)
    case Some(e) => Fail(e)
    case None => Ok(ref + BlobSuffix(t))
  }

  /** The name that Step 3f would move: `.aead`, no tier suffix, not the single instance's. */
  predicate Movable(name: string) {
    && HasSuffix(name, AEAD)
    && !HasSuffix(name, BlobSuffix(Tier0)) && !HasSuffix(name, BlobSuffix(Tier1))
    && name != SINGLE_INSTANCE + AEAD
  }

  lemma BlobSuffixSplits(name: string, t: Tier)
    ensures HasSuffix(name, BlobSuffix(t)) <==> HasSuffix(name, AEAD) && HasSuffix(Strip(name, AEAD), TierMark(t))
    ensures HasSuffix(name, BlobSuffix(t)) ==> Strip(name, BlobSuffix(t)) == Strip(Strip(name, AEAD), TierMark(t))
  {
    var b := BlobSuffix(t);
    if HasSuffix(name, b) {
      SuffixStripped(name, b);
      var r := Strip(name, b);
      assert name == (r + TierMark(t)) + AEAD;
      SuffixAppended(r + TierMark(t), AEAD);
      SuffixAppended(r, TierMark(t));
    }
    if HasSuffix(name, AEAD) && HasSuffix(Strip(name, AEAD), TierMark(t)) {
      SuffixStripped(name, AEAD);
      SuffixStripped(Strip(name, AEAD), TierMark(t));
      var r := Strip(Strip(name, AEAD), TierMark(t));
      assert name == r + b;
      SuffixAppended(r, b);
    }
  }

  lemma ReadingOfKeyPath(ref: string, t: Tier)
    ensures Classify(ref + BlobSuffix(t)) == TierBlob(ref, t)
    ensures ref + BlobSuffix(t) == FileName(TierBlob(ref, t))
  {
    hide Classify, TierMark;
    ReadingOfName(TierBlob(ref, t));
    assert ref + BlobSuffix(t) == ref + TierMark(t) + AEAD;
  }

  lemma ListedByReading(name: string, t: Tier)
    ensures HasSuffix(name, BlobSuffix(t)) <==> Classify(name).TierBlob? && Classify(name).tier == t
    ensures HasSuffix(name, BlobSuffix(t)) ==> Classify(name).ref == Strip(name, BlobSuffix(t))
  {
    MastersAreNotBlobs();
    BlobSuffixSplits(name, t);
    hide MasterName, TierMark, BlobSuffix, LEGACY_MASTER, AEAD;
    if HasSuffix(name, AEAD) {
      var stem := Strip(name, AEAD);
      if HasSuffix(stem, TierMark(Tier1)) {
        SuffixStripped(stem, TierMark(Tier1));
        TierMarksDiffer(Strip(stem, TierMark(Tier1)));
      }
    }
  }

  /** The suffix tests of the code, read off the file: which names are listed in a tier, under
      which ref, which names Step 3f moves, and where it moves them. */
  lemma SuffixTestsByReading(name: string, t: Tier)
    ensures HasSuffix(name, BlobSuffix(t)) <==> Classify(name).TierBlob? && Classify(name).tier == t
    ensures HasSuffix(name, BlobSuffix(t)) ==> Classify(name).ref == Strip(name, BlobSuffix(t))
    ensures Movable(name) <==> Classify(name).LegacyBlob? && Classify(name).ref != SINGLE_INSTANCE
    ensures Movable(name) ==>
      && Classify(name).ref == Strip(name, AEAD)
      && Classify(Strip(name, AEAD) + BlobSuffix(Tier1)) == TierBlob(Classify(name).ref, Tier1)
  {
    ListedByReading(name, t);
    ListedByReading(name, Tier0);
    ListedByReading(name, Tier1);
    LegacyByReading(name);
    SingleInstanceReading();
    NameOfReading(name);
    hide Classify, HasSuffix, BlobSuffix, SINGLE_INSTANCE, AEAD;
    if HasSuffix(name, AEAD) {
      ReadingOfKeyPath(Strip(name, AEAD), Tier1);
      SuffixAppended(SINGLE_INSTANCE, AEAD);
    }
  }

  lemma LegacyByReading(name: string)
    ensures Classify(name).LegacyBlob? ==> HasSuffix(name, AEAD) && Classify(name).ref == Strip(name, AEAD)
    ensures HasSuffix(name, AEAD) ==> Classify(name).LegacyBlob? || Classify(name).TierBlob?
  {
    MastersAreNotBlobs();
    hide MasterName, TierMark, LEGACY_MASTER, AEAD;
  }

  /** No two accepted refs share a file, in one tier or across tiers; no blob path is a master's,
      and none would be moved by the migration. */
  lemma KeyPathDiscipline(ref: string, t: Tier, ref': string, t': Tier)
    ensures KeyPath(ref, t).Ok? && KeyPath(ref, t) == KeyPath(ref', t') ==> ref == ref' && t == t'
    ensures KeyPath(ref, t).Ok? ==>
      var name := KeyPath(ref, t).value;
      && name != LEGACY_MASTER && name != MasterName(Tier0) && name != MasterName(Tier1)
      && !Movable(name) && name != SINGLE_INSTANCE + AEAD
      && HasSuffix(name, BlobSuffix(t)) && Strip(name, BlobSuffix(t)) == ref
  {
    hide Classify, HasSuffix, MasterName, TierMark, BlobSuffix, SINGLE_INSTANCE, RefProblem;
    ReadingOfKeyPath(ref, t);
    ReadingOfKeyPath(ref', t');
    SuffixTestsByReading(ref + BlobSuffix(t), t);
    ReadingOfName(LegacyMaster);
    ReadingOfName(Master(Tier0));
    ReadingOfName(Master(Tier1));
    SingleInstanceReading();
  }

  lemma SingleInstanceEnd()
    ensures SINGLE_INSTANCE != "" && SINGLE_INSTANCE[|SINGLE_INSTANCE| - 1] == 'e' && SINGLE_INSTANCE[0] == 's'
    ensures '/' !in SINGLE_INSTANCE && '\\' !in SINGLE_INSTANCE && '\0' !in SINGLE_INSTANCE
  {
  }

  lemma SingleInstanceReading()
    ensures Classify(SINGLE_INSTANCE + AEAD) == LegacyBlob(SINGLE_INSTANCE)
    ensures Accepted(SINGLE_INSTANCE)
  {
    SingleInstanceEnd();
    assert TierMark(Tier0)[2] == '0' && TierMark(Tier1)[2] == '1' && AEAD[4] == 'd';
    hide SINGLE_INSTANCE;
    LastOfSuffix(SINGLE_INSTANCE, TierMark(Tier0));
    LastOfSuffix(SINGLE_INSTANCE, TierMark(Tier1));
    LastOfSuffix(SINGLE_INSTANCE, AEAD);
    ReadingOfName(LegacyBlob(SINGLE_INSTANCE));
  }

  // ---------------------------------------------------------------- spelled out

  /** The names on disk. */
  lemma NamesSpelled(ref: string)
    ensures FileName(LegacyMaster) == ".master"
    ensures FileName(Master(Tier0)) == ".master-tier0" && FileName(Master(Tier1)) == ".master-tier1"
    ensures FileName(TierBlob(ref, Tier0)) == ref + ".t0.aead" && FileName(TierBlob(ref, Tier1)) == ref + ".t1.aead"
    ensures FileName(LegacyBlob(ref)) == ref + ".aead" && SINGLE_INSTANCE == "single-instance"
  {
    assert ref + ".t0" + ".aead" == ref + ".t0.aead" && ref + ".t1" + ".aead" == ref + ".t1.aead";
  }

  function TierName(stem: string, digit: char): string {
    stem + ".t" + [digit] + ".aead"
  }

  lemma TierSuffixExactly(ref: string)
    ensures HasTierSuffix(ref) <==> exists stem, digit :: '0' <= digit <= '9' && ref == TierName(stem, digit)
  {
    if HasTierSuffix(ref) {
      SuffixStripped(ref, AEAD);
      var rem := Strip(ref, AEAD);
      var stem, digit := rem[..|rem| - 3], rem[|rem| - 1];
      assert rem == stem + ".t" + [digit];
      assert ref == TierName(stem, digit);
    }
    forall stem, digit | '0' <= digit <= '9' && ref == TierName(stem, digit)
      ensures HasTierSuffix(ref)
    {
      var rem := stem + ".t" + [digit];
      assert ref == rem + AEAD;
      SuffixAppended(rem, AEAD);
    }
  }

  /** A ref is accepted exactly if it is not empty, holds no separator and no NUL, does not begin with a
      dot, and does not end like a tier's file; and it is refused for the first of these that fails. */
  lemma AcceptedExactly(ref: string)
    ensures Accepted(ref) <==>
      && ref != "" && '/' !in ref && '\\' !in ref && '\0' !in ref && ref[0] != '.'
      && forall stem, digit :: '0' <= digit <= '9' ==> ref != TierName(stem, digit)
    ensures RefProblem(ref) == Some(EmptyRef) <==> ref == ""
    ensures RefProblem(ref) == Some(SeparatorOrDot) <==> ref != "" && ('/' in ref || '\\' in ref || ref[0] == '.')
    ensures RefProblem(ref) == Some(NulByte) <==>
      ref != "" && '/' !in ref && '\\' !in ref && ref[0] != '.' && '\0' in ref
  {
    TierSuffixExactly(ref);
    hide HasTierSuffix, TierName;
  }

  /** So every path that is given out is one component of the keys directory: no separator in it, no dot
      in front, the ref itself with the tier's suffix behind. */
  lemma PathIsOneComponent(ref: string, t: Tier)
    ensures KeyPath(ref, t).Ok? <==> Accepted(ref)
    ensures KeyPath(ref, t).Ok? ==>
      var name := KeyPath(ref, t).value;
      && name == ref + (if t == Tier0 then ".t0.aead" else ".t1.aead")
      && name != "" && name[0] != '.' && '/' !in name && '\\' !in name && '\0' !in name
  {
    AcceptedExactly(ref);
    hide RefProblem, TierName;
    assert BlobSuffix(Tier0) == ".t0.aead" && BlobSuffix(Tier1) == ".t1.aead";
    assert t == Tier0 || t == Tier1;
  }
}
