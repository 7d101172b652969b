/** What a glob dependency demands, as it is coded and as it is documented: by
    the documentation a pattern without `ACTION_SUCCEEDED` is about order only,
    by the code it demands success. When the two come to the same. */
module GlobDependencies {
  import opened Folding
  import opened ActionRuns
  import opened ActionOutcomes

  datatype Reading = Coded | Documented

  /** `n` is not to run unless `m` succeeds. */
  ghost predicate Needs(sys: System, how: Reading, n: string, m: string) {
    n in sys.actions
    && exists p :: p in sys.actions[n].predecessors && sys.Hits(p, m) && (p.succeeded || (how.Coded? && p.glob))
  }

  ghost predicate AllSucceed(sys: System, how: Reading, result: map<string, bool>, n: string) {
    forall m :: m in sys.actions && Needs(sys, how, n, m) ==> m in result && result[m]
  }

  /** What becomes of the actions by either reading. */
  ghost predicate Solves(sys: System, how: Reading, result: map<string, bool>) {
    result.Keys == sys.actions.Keys
    && forall n :: n in sys.actions ==> (result[n] <==> sys.actions[n].outcome && AllSucceed(sys, how, result, n))
  }

  lemma CodedExplains(sys: System, result: map<string, bool>)
    ensures Solves(sys, Coded, result) <==> Explains(sys, result)
  {
    assert Unfold(0);
    forall n, m ensures Needs(sys, Coded, n, m) <==> sys.Requires(n, m) {}
    forall n | n in sys.actions ensures AllSucceed(sys, Coded, result, n) <==> RequirementsMet(sys, result, n) {}
  }

  // ----- For one assignment of outcomes

  /** What happens is what is documented just if, by the documentation, no action
      succeeds although one that the code makes it depend on fails. */
  lemma AsDocumentedIff(sys: System, rank: map<string, nat>, a: map<string, bool>, d: map<string, bool>)
    requires sys.RankedBy(rank) && Solves(sys, Coded, a) && Solves(sys, Documented, d)
    ensures a == d <==> forall n :: n in sys.actions && d[n] ==> AllSucceed(sys, Coded, d, n)
  {
    if forall n :: n in sys.actions && d[n] ==> AllSucceed(sys, Coded, d, n) {
      forall n | n in sys.actions ensures AllSucceed(sys, Coded, d, n) ==> AllSucceed(sys, Documented, d, n) {
        forall m | Needs(sys, Documented, n, m) ensures Needs(sys, Coded, n, m) {}
      }
      CodedExplains(sys, a);
      CodedExplains(sys, d);
      ExplanationUnique(sys, rank, a, d);
    }
  }

  /** The same of a run. */
  lemma RunAsDocumentedIff(sys: System, t: seq<Event>, d: map<string, bool>)
    requires FinishedRun(sys, t)
    requires Solves(sys, Documented, d)
    ensures After(sys, t).done == d <==> forall n :: n in sys.actions && d[n] ==> AllSucceed(sys, Coded, d, n)
  {
    FinishedRunIsAcyclic(sys, t);
    FinishedRunExplained(sys, t);
    CodedExplains(sys, After(sys, t).done);
    AsDocumentedIff(sys, DoneAt(t), After(sys, t).done, d);
  }

  /** It is not in general: `y` is to follow whatever matches `x`, whether or not
      that succeeds; `x` fails; and `y` is failed without being run. */
  lemma NotAsDocumented(x: string, y: string) returns (sys: System)
    requires x != y
    ensures sys.actions.Keys == {x, y} && sys.matches == ((p, n) => p == n)
    ensures sys.actions[y] == Definition([], [Predecessor(x, false, true)], 0, true)
    ensures Solves(sys, Documented, map[x := false, y := true])
    ensures Solves(sys, Coded, map[x := false, y := false])
    ensures sys.RankedBy(map[x := 0, y := 1])
  {
    sys := System(map[x := Definition([], [], 0, false), y := Definition([], [Predecessor(x, false, true)], 0, true)],
                  (p, n) => p == n);
    var glob := Predecessor(x, false, true);
    assert sys.actions[y].predecessors[0] == glob && sys.Hits(glob, x);
    assert Needs(sys, Coded, y, x);
  }

  // ----- For every assignment of outcomes

  ghost function WithOutcomes(sys: System, outcomes: map<string, bool>): System {
    System(map n | n in sys.actions :: sys.actions[n].(outcome := n in outcomes && outcomes[n]), sys.matches)
  }

  lemma OutcomesChangeNoNeed(sys: System, outcomes: map<string, bool>, n: string, m: string)
    ensures forall how :: Needs(WithOutcomes(sys, outcomes), how, n, m) <==> Needs(sys, how, n, m)
    ensures WithOutcomes(sys, outcomes).DependsOn(n, m) <==> sys.DependsOn(n, m)
  {
    var other := WithOutcomes(sys, outcomes);
    assert n in sys.actions ==> other.actions[n].predecessors == sys.actions[n].predecessors;
    forall p ensures other.Hits(p, m) <==> sys.Hits(p, m) {}
  }

  ghost predicate IsPath(sys: System, how: Reading, path: seq<string>) {
    |path| >= 2 && (forall i :: 0 <= i < |path| ==> path[i] in sys.actions)
    && forall i :: 0 <= i < |path| - 1 ==> Needs(sys, how, path[i], path[i + 1])
  }

  /** `n` needs `m`, or something that needs it, and so on. */
  ghost predicate Reaches(sys: System, how: Reading, n: string, m: string) {
    exists path :: IsPath(sys, how, path) && path[0] == n && path[|path| - 1] == m
  }

  lemma PathOfTwo(sys: System, how: Reading, n: string, m: string)
    requires n in sys.actions && m in sys.actions && Needs(sys, how, n, m)
    ensures Reaches(sys, how, n, m)
  {
    var path := [n, m];
    assert IsPath(sys, how, path) && path[0] == n && path[|path| - 1] == m;
  }

  lemma PathLonger(sys: System, how: Reading, n: string, rest: seq<string>)
    requires n in sys.actions && IsPath(sys, how, rest) && Needs(sys, how, n, rest[0])
    ensures Reaches(sys, how, n, rest[|rest| - 1])
  {
    var path := [n] + rest;
    forall i | 0 <= i < |path| - 1 ensures Needs(sys, how, path[i], path[i + 1]) {
      if i > 0 { assert path[i] == rest[i - 1] && path[i + 1] == rest[i - 1 + 1]; }
    }
    assert IsPath(sys, how, path) && path[0] == n && path[|path| - 1] == rest[|rest| - 1];
  }

  lemma PathShorter(sys: System, how: Reading, path: seq<string>)
    requires IsPath(sys, how, path) && |path| > 2
    ensures Reaches(sys, how, path[1], path[|path| - 1])
  {
    var rest := path[1..];
    forall i | 0 <= i < |rest| - 1 ensures Needs(sys, how, rest[i], rest[i + 1]) {
      assert rest[i] == path[i + 1] && rest[i + 1] == path[i + 1 + 1];
    }
    assert IsPath(sys, how, rest) && rest[0] == path[1] && rest[|rest| - 1] == path[|path| - 1];
  }

  lemma ReachesIff(sys: System, how: Reading, n: string, m: string)
    requires n in sys.actions && m in sys.actions
    ensures Reaches(sys, how, n, m)
            <==> Needs(sys, how, n, m) || exists k :: k in sys.actions && Needs(sys, how, n, k) && Reaches(sys, how, k, m)
  {
    if Reaches(sys, how, n, m) {
      var path :| IsPath(sys, how, path) && path[0] == n && path[|path| - 1] == m;
      assert Needs(sys, how, path[0], path[0 + 1]);
      if |path| > 2 { PathShorter(sys, how, path); }
    }
    if Needs(sys, how, n, m) { PathOfTwo(sys, how, n, m); }
    if k :| k in sys.actions && Needs(sys, how, n, k) && Reaches(sys, how, k, m) {
      var rest :| IsPath(sys, how, rest) && rest[0] == k && rest[|rest| - 1] == m;
      PathLonger(sys, how, n, rest);
    }
  }

  /** If `m` is the one action whose own outcome is failure, it fails and so does
      whatever reaches it. */
  lemma OneFailure(sys: System, how: Reading, m: string) returns (outcomes: map<string, bool>, result: map<string, bool>)
    requires m in sys.actions
    ensures outcomes == map k | k in sys.actions :: k != m
    ensures result == map k | k in sys.actions :: k != m && !Reaches(sys, how, k, m)
    ensures Solves(WithOutcomes(sys, outcomes), how, result)
  {
    outcomes := map k | k in sys.actions :: k != m;
    result := map k | k in sys.actions :: k != m && !Reaches(sys, how, k, m);
    var other := WithOutcomes(sys, outcomes);
    forall n | n in sys.actions
      ensures result[n] <==> other.actions[n].outcome && AllSucceed(other, how, result, n)
    {
      ReachesIff(sys, how, n, m);
      forall k ensures Needs(other, how, n, k) <==> Needs(sys, how, n, k) {
        OutcomesChangeNoNeed(sys, outcomes, n, k);
      }
    }
  }

  lemma {:induction false} SuccessAlong(sys: System, d: map<string, bool>, path: seq<string>, i: nat)
    requires Solves(sys, Documented, d) && IsPath(sys, Documented, path) && d[path[0]] && i < |path|
    ensures d[path[i]]
  {
    if i > 0 {
      SuccessAlong(sys, d, path, i - 1);
      assert Needs(sys, Documented, path[i - 1], path[i]);
    }
  }

  /** Whatever the actions' own outcomes are, what happens is what is documented. */
  ghost predicate MeetsDocumentation(sys: System) {
    forall outcomes, a, d ::
      Solves(WithOutcomes(sys, outcomes), Coded, a) && Solves(WithOutcomes(sys, outcomes), Documented, d) ==> a == d
  }

  /** What the code adds is demanded already, if only through other actions. */
  ghost predicate NothingAdded(sys: System) {
    forall n, m :: n in sys.actions && m in sys.actions && Needs(sys, Coded, n, m) ==> Reaches(sys, Documented, n, m)
  }

  lemma RankedWithOutcomes(sys: System, rank: map<string, nat>, outcomes: map<string, bool>)
    requires sys.RankedBy(rank)
    ensures WithOutcomes(sys, outcomes).RankedBy(rank)
  {
    assert Unfold(0);
    forall n, m ensures WithOutcomes(sys, outcomes).DependsOn(n, m) <==> sys.DependsOn(n, m) {
      OutcomesChangeNoNeed(sys, outcomes, n, m);
    }
  }

  lemma NothingAddedSuffices(sys: System, rank: map<string, nat>, outcomes: map<string, bool>, a: map<string, bool>, d: map<string, bool>)
    requires sys.RankedBy(rank) && NothingAdded(sys)
    requires Solves(WithOutcomes(sys, outcomes), Coded, a) && Solves(WithOutcomes(sys, outcomes), Documented, d)
    ensures a == d
  {
    var other := WithOutcomes(sys, outcomes);
    RankedWithOutcomes(sys, rank, outcomes);
    forall n, m | n in sys.actions && m in sys.actions && d[n] && Needs(other, Coded, n, m) ensures d[m] {
      OutcomesChangeNoNeed(sys, outcomes, n, m);
      var path :| IsPath(sys, Documented, path) && path[0] == n && path[|path| - 1] == m;
      forall i | 0 <= i < |path| - 1 ensures Needs(other, Documented, path[i], path[i + 1]) {
        OutcomesChangeNoNeed(sys, outcomes, path[i], path[i + 1]);
      }
      SuccessAlong(other, d, path, |path| - 1);
    }
    AsDocumentedIff(other, rank, a, d);
  }

  /** So the documentation is right about a list, for all outcomes, exactly if
      each action that a pattern matches is also needed, directly or through
      others, by documented means. */
  lemma MeetsDocumentationIff(sys: System, rank: map<string, nat>)
    requires sys.RankedBy(rank)
    ensures MeetsDocumentation(sys) <==> NothingAdded(sys)
  {
    assert Unfold(0);
    if NothingAdded(sys) {
      forall outcomes, a, d | Solves(WithOutcomes(sys, outcomes), Coded, a) && Solves(WithOutcomes(sys, outcomes), Documented, d)
        ensures a == d
      {
        NothingAddedSuffices(sys, rank, outcomes, a, d);
      }
    }
    if MeetsDocumentation(sys) {
      forall n, m | n in sys.actions && m in sys.actions && Needs(sys, Coded, n, m) ensures Reaches(sys, Documented, n, m) {
        var outcomes, a := OneFailure(sys, Coded, m);
        var same, d := OneFailure(sys, Documented, m);
        assert a == d;
        ReachesIff(sys, Coded, n, m);
        assert !d[n];
        assert sys.DependsOn(n, m);
      }
    }
  }
}
