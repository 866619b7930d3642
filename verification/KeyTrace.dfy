/** The key store told by its answers alone: from an empty directory every answer follows from the calls
    and answers before it, with no state between them. */
module KeyTrace {
  import opened Wrappers
  import opened KeyFiles
  import opened KeyDisk
  import opened KeySpec
  import opened KeyMaps

  /** Whether the tier was last wired, since the last restart, to a provider that gives a KEK. */
  ghost predicate LiveAfter(ops: seq<Op>, t: Tier) {
    if ops == [] then false
    else
      var n := |ops| - 1;
      match ops[n]
      case Wire(u, provider) => if u == t then Reply(provider).Some? else LiveAfter(ops[..n], t)
      case Restart => false
      case _ => LiveAfter(ops[..n], t)
  }

  /** What a ref was last given: by an acknowledged put or a get-or-create that found something, unless an
      acknowledged deletion came after. */
  function LastKept(ops: seq<Op>, answers: seq<Answer>, t: Tier, ref: string): Option<Bytes>
    requires |ops| == |answers|
  {
    if ops == [] then None
    else
      var n := |ops| - 1;
      var before := LastKept(ops[..n], answers[..n], t, ref);
      match ops[n]
      case Put(u, r, plain) => if u == t && r == ref && answers[n] == Acknowledged then Some(plain) else before
      case GetOrCreate(u, r, _) => if u == t && r == ref && answers[n].Found? then Some(answers[n].plain) else before
      case Delete(u, r) => if u == t && r == ref && answers[n] == Acknowledged then None else before
      case _ => before
  }

  function Refusal(t: Tier, ref: string, live: bool): Option<KeyError> {
    if !live then Some(NoProvider(t))
    else if !Accepted(ref) then Some(BadRef(RefProblem(ref).value))
    else None
  }

  /** Answer i is what the calls and answers before it require. */
  ghost predicate Told(ops: seq<Op>, answers: seq<Answer>, i: nat)
    requires |ops| == |answers| && i < |ops|
  {
    var before, said, answer := ops[..i], answers[..i], answers[i];
    match ops[i]
    case Put(t, ref, _) =>
      var refusal := Refusal(t, ref, LiveAfter(before, t));
      answer == if refusal.Some? then Failed(refusal.value) else Acknowledged
    case Get(t, ref) =>
      var refusal, kept := Refusal(t, ref, LiveAfter(before, t)), LastKept(before, said, t, ref);
      answer ==
        if refusal.Some? then Failed(refusal.value)
        else if kept.Some? then Found(kept.value)
        else Failed(ReadFailed)
    case GetOrCreate(t, ref, generated) =>
      var refusal, kept := Refusal(t, ref, LiveAfter(before, t)), LastKept(before, said, t, ref);
      answer ==
        if refusal.None? && kept.Some? then Found(kept.value)
        else if generated.None? then Failed(GenerateFailed)
        else if refusal.Some? then Failed(refusal.value)
        else Found(generated.value)
    case Has(t, ref) =>
      var refusal := Refusal(t, ref, true);
      answer == if refusal.Some? then Failed(refusal.value) else Present(LastKept(before, said, t, ref).Some?)
    case Delete(t, ref) =>
      var refusal := Refusal(t, ref, true);
      answer == if refusal.Some? then Failed(refusal.value) else Acknowledged
    case List(t) =>
      answer.Refs? && forall ref :: ref in answer.refs <==> LastKept(before, said, t, ref).Some?
    case _ => answer == Acknowledged
  }

  ghost predicate AnswersAsMaps(ops: seq<Op>, answers: seq<Answer>)
    requires |ops| == |answers|
  {
    forall i :: 0 <= i < |ops| ==> answers[i] == MapsStep(ops[i], MapsAfter(ops[..i])).1
  }

  lemma MapsPrefix(ops: seq<Op>, answers: seq<Answer>)
    requires |ops| == |answers| && ops != [] && AnswersAsMaps(ops, answers)
    ensures var n := |ops| - 1;
      AnswersAsMaps(ops[..n], answers[..n]) && answers[n] == MapsStep(ops[n], MapsAfter(ops[..n])).1
  {
    hide MapsStep, MapsAfter;
    var n := |ops| - 1;
    forall i | 0 <= i < n
      ensures answers[..n][i] == MapsStep(ops[..n][i], MapsAfter(ops[..n][..i])).1
    {
      assert ops[..n][..i] == ops[..i];
    }
  }

  lemma KeptStep(op: Op, s: Maps, t: Tier, ref: string)
    ensures var (s', answer) := MapsStep(op, s);
      (ref in s'.Map(t) <==>
        match op
        case Put(u, r, _) => (u == t && r == ref && answer == Acknowledged) || ref in s.Map(t)
        case GetOrCreate(u, r, _) => (u == t && r == ref && answer.Found?) || ref in s.Map(t)
        case Delete(u, r) => !(u == t && r == ref && answer == Acknowledged) && ref in s.Map(t)
        case _ => ref in s.Map(t))
    ensures var (s', answer) := MapsStep(op, s);
      ref in s'.Map(t) ==>
        match op
        case Put(u, r, plain) =>
          s'.Map(t)[ref] == if u == t && r == ref && answer == Acknowledged then plain else s.Map(t)[ref]
        case GetOrCreate(u, r, _) =>
          s'.Map(t)[ref] == if u == t && r == ref && answer.Found? then answer.plain else s.Map(t)[ref]
        case _ => s'.Map(t)[ref] == s.Map(t)[ref]
  {
    hide RefProblem, Reply;
  }

  /** The maps hold exactly what was last kept, and are live exactly as last wired. */
  lemma {:induction false} MapsAsTold(ops: seq<Op>, answers: seq<Answer>, t: Tier, ref: string)
    requires |ops| == |answers| && AnswersAsMaps(ops, answers)
    ensures MapsAfter(ops).Live(t) == LiveAfter(ops, t)
    ensures LastKept(ops, answers, t, ref) ==
      if ref in MapsAfter(ops).Map(t) then Some(MapsAfter(ops).Map(t)[ref]) else None
  {
    if ops != [] {
      var n := |ops| - 1;
      MapsPrefix(ops, answers);
      MapsAsTold(ops[..n], answers[..n], t, ref);
      KeptStep(ops[n], MapsAfter(ops[..n]), t, ref);
      LiveStep(ops[n], MapsAfter(ops[..n]), t);
      hide MapsStep, AnswersAsMaps, Reply;
    }
  }

  lemma LiveStep(op: Op, s: Maps, t: Tier)
    ensures MapsStep(op, s).0.Live(t) <==>
      match op
      case Wire(u, provider) => if u == t then Reply(provider).Some? else s.Live(t)
      case Restart => false
      case _ => s.Live(t)
  {
    hide RefProblem, Reply;
  }

  /** So every run that answers as the two maps do, as all runs from an empty directory, answers a get with
      what was last put, and everything else as the calls before it require. */
  lemma AnswersFollow(ops: seq<Op>, answers: seq<Answer>, i: nat)
    requires |ops| == |answers| && AnswersAsMaps(ops, answers) && i < |ops|
    ensures Told(ops, answers, i)
  {
    PrefixAsMaps(ops, answers, i);
    var s, op := MapsAfter(ops[..i]), ops[i];
    assert answers[i] == MapsStep(op, s).1;
    hide LiveAfter, LastKept, MapsAfter, AnswersAsMaps, Reply, RefProblem;
    match op
    case List(t) =>
      forall ref
        ensures LastKept(ops[..i], answers[..i], t, ref).Some? <==> ref in s.Map(t)
      {
        MapsAsTold(ops[..i], answers[..i], t, ref);
      }
    case Put(t, ref, _) => MapsAsTold(ops[..i], answers[..i], t, ref);
    case Get(t, ref) => MapsAsTold(ops[..i], answers[..i], t, ref);
    case GetOrCreate(t, ref, _) => MapsAsTold(ops[..i], answers[..i], t, ref);
    case Has(t, ref) => MapsAsTold(ops[..i], answers[..i], t, ref);
    case _ =>
  }

  lemma PrefixAsMaps(ops: seq<Op>, answers: seq<Answer>, i: nat)
    requires |ops| == |answers| && AnswersAsMaps(ops, answers) && i <= |ops|
    ensures AnswersAsMaps(ops[..i], answers[..i])
  {
    hide MapsStep, MapsAfter;
    forall j | 0 <= j < i
      ensures answers[..i][j] == MapsStep(ops[..i][j], MapsAfter(ops[..i][..j])).1
    {
      assert ops[..i][..j] == ops[..j];
    }
  }
}
