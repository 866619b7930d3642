/** Any sequence of calls on the authenticator itself. */
module AuthDriver {
  import opened AuthSpec
  import opened AuthService
  import opened AuthRuns

  /** The object goes through the states, and gives the answers, that the runs are stated about. */
  method RunCalls(auth: Authenticator, calls: seq<Call>) returns (answers: seq<Answer>)
    modifies auth, auth.store
    ensures auth.View() == After(auth.cfg, old(auth.View()), calls)
    ensures |answers| == |calls|
    ensures forall i :: 0 <= i < |calls| ==> answers[i] == AnswerOf(auth.cfg, old(auth.View()), calls, i)
  {
    hide AuthStep;
    answers := [];
    ghost var s := auth.View();
    for n := 0 to |calls|
      invariant auth.View() == After(auth.cfg, s, calls[..n])
      invariant |answers| == n
      invariant forall i :: 0 <= i < n ==> answers[i] == AnswerOf(auth.cfg, s, calls, i)
    {
      var answer := auth.Do(calls[n].op, calls[n].env);
      AfterNext(auth.cfg, s, calls, n);
      answers := answers + [answer];
    }
    assert calls[..|calls|] == calls;
  }

  /** A fresh authenticator accepts a token exactly as the grants of the run so far say. */
  method RunValidates(cfg: Config, files: Medium, calls: seq<Call>) returns (answers: seq<Answer>)
    requires Monotone(calls)
    ensures |answers| == |calls|
    ensures forall i :: 0 <= i < |calls| && calls[i].op.ValidateSession? ==>
      (answers[i].Ok? <==>
        Alive(GrantOf(cfg, Auth(files, map[], map[]), calls[..i], calls[i].op.token), calls[i].env.now))
  {
    var auth := new Authenticator(cfg, files);
    ghost var s := auth.View();
    answers := RunCalls(auth, calls);
    forall i | 0 <= i < |calls| && calls[i].op.ValidateSession?
      ensures answers[i].Ok? <==> Alive(GrantOf(cfg, s, calls[..i], calls[i].op.token), calls[i].env.now)
    {
      ValidExactly(cfg, s, calls, i, calls[i].op.token);
    }
  }
}
