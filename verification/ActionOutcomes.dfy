/** What every run of an action list must come to. The order in which actions
    complete is arbitrary throughout. */
module ActionOutcomes {
  import opened Common
  import opened Folding
  import opened ActionRuns

  /** `result` says of every action whether it succeeded: it did iff its own
      outcome is success and everything it requires succeeded; folded. */
  ghost predicate Explains(sys: System, result: map<string, bool>) {
    result.Keys == sys.actions.Keys
    && forall k {:trigger Unfold(k)} :: Unfold(k) ==>
         forall n :: n in sys.actions ==> (result[n] <==> Earned(sys, result, n))
  }

  ghost predicate Earned(sys: System, done: map<string, bool>, n: string)
    requires n in sys.actions
  {
    sys.actions[n].outcome && RequirementsMet(sys, done, n)
  }

  ghost predicate RequirementsMet(sys: System, done: map<string, bool>, n: string) {
    forall m :: m in sys.actions && sys.Requires(n, m) ==> m in done && done[m]
  }

  lemma Explained(sys: System, result: map<string, bool>, n: string)
    requires Explains(sys, result) && n in sys.actions
    ensures n in result && (result[n] <==> Earned(sys, result, n))
  {
    assert Unfold(0);
  }

  ghost predicate DependenciesDone(sys: System, done: map<string, bool>, n: string) {
    forall m :: m in sys.actions && sys.DependsOn(n, m) ==> m in done
  }

  /** Over an acyclic dependency relation the equation has one solution. */
  lemma ExplanationUnique(sys: System, rank: map<string, nat>, a: map<string, bool>, b: map<string, bool>)
    requires sys.RankedBy(rank) && Explains(sys, a) && Explains(sys, b)
    ensures a == b
  {
    forall n | n in sys.actions ensures a[n] == b[n] {
      ExplanationUniqueAt(sys, rank, a, b, n);
    }
  }

  lemma {:induction false} ExplanationUniqueAt(sys: System, rank: map<string, nat>, a: map<string, bool>,
                                               b: map<string, bool>, n: string)
    requires sys.RankedBy(rank) && Explains(sys, a) && Explains(sys, b) && n in sys.actions
    ensures a[n] == b[n]
    decreases rank[n]
  {
    assert Unfold(0);
    forall m | m in sys.actions && sys.Requires(n, m) ensures a[m] == b[m] {
      RequirementRanksLower(sys, rank, n, m);
      ExplanationUniqueAt(sys, rank, a, b, m);
    }
    assert RequirementsMet(sys, a, n) <==> RequirementsMet(sys, b, n);
  }

  lemma RequirementRanksLower(sys: System, rank: map<string, nat>, n: string, m: string)
    requires sys.RankedBy(rank) && n in sys.actions && m in sys.actions && sys.Requires(n, m)
    ensures rank[m] < rank[n]
  {
    assert Unfold(0);
    assert sys.DependsOn(n, m);
  }

  // ----- Runs that no time limit cut short

  /** A run in which every action was finished, without a time limit. */
  ghost predicate FinishedRun(sys: System, t: seq<Event>) {
    IsRun(sys, t) && Uncancelled(t) && Honest(sys, t, false) && After(sys, t).Complete()
  }

  ghost predicate Settled(sys: System, s: State) {
    (forall n :: n in s.running ==> DependenciesDone(sys, s.done, n) && RequirementsMet(sys, s.done, n))
    && forall n :: n in s.done && n in sys.actions ==>
                     DependenciesDone(sys, s.done, n) && (s.done[n] <==> Earned(sys, s.done, n))
  }

  lemma ReadyDependenciesDone(sys: System, s: State, n: string)
    requires Consistent(sys, s) && Ready(sys, s, n)
    ensures DependenciesDone(sys, s.done, n)
    ensures Doomed(sys, s, n) <==> !RequirementsMet(sys, s.done, n)
  {
    forall m | m in sys.actions && sys.DependsOn(n, m) ensures m in s.done {
      var p :| p in sys.actions[n].predecessors && sys.Hits(p, m);
      assert PredecessorDone(sys, s, p);
      assert !s.Unfinished(m);
    }
    forall m | m in sys.actions && sys.Requires(n, m) ensures m in s.done {
      assert sys.DependsOn(n, m);
    }
  }

  lemma StepSettled(sys: System, s: State, e: Event)
    requires Consistent(sys, s) && Settled(sys, s) && Enabled(sys, s, e) && !e.Cancel?
    requires e.Finish? ==> e.ok == sys.actions[e.name].outcome
    ensures Settled(sys, Apply(sys, s, e))
  {
    var s' := Apply(sys, s, e);
    if !e.Finish? { ReadyDependenciesDone(sys, s, e.name); }
    forall n | n in s.running || n in s.done || n == e.name
      ensures DependenciesDone(sys, s.done, n) ==> DependenciesDone(sys, s'.done, n)
      ensures DependenciesDone(sys, s.done, n) ==> (RequirementsMet(sys, s.done, n) <==> RequirementsMet(sys, s'.done, n))
    {
    }
  }

  lemma {:induction false} RunSettled(sys: System, t: seq<Event>)
    requires IsRun(sys, t) && Uncancelled(t) && Honest(sys, t, false)
    ensures Settled(sys, After(sys, t))
  {
    if t != [] {
      RunSettled(sys, Front(t));
      RunConsistent(sys, Front(t));
      StepSettled(sys, After(sys, Front(t)), Last(t));
    }
  }

  /** When an action's fate was decided, counted in events. */
  ghost function DoneAt(t: seq<Event>): map<string, nat> {
    if t == [] then map[]
    else match Last(t)
      case Start(_) => DoneAt(Front(t))
      case Skip(n) => DoneAt(Front(t))[n := |t|]
      case Finish(n, _) => DoneAt(Front(t))[n := |t|]
      case Cancel(n) => DoneAt(Front(t))[n := |t|]
  }

  ghost predicate DoneInOrder(sys: System, s: State, at: map<string, nat>, now: nat) {
    at.Keys == s.done.Keys
    && (forall n :: n in at ==> at[n] <= now)
    && forall n, m :: n in at && m in sys.actions && sys.DependsOn(n, m) ==> m in at && at[m] < at[n]
  }

  lemma {:induction false} RunInOrder(sys: System, t: seq<Event>)
    requires IsRun(sys, t) && Uncancelled(t) && Honest(sys, t, false)
    ensures DoneInOrder(sys, After(sys, t), DoneAt(t), |t|)
  {
    if t != [] {
      var f, s := Front(t), After(sys, Front(t));
      RunInOrder(sys, f);
      RunConsistent(sys, f);
      RunSettled(sys, f);
      var e := Last(t);
      if e.Skip? { ReadyDependenciesDone(sys, s, e.name); }
      var at, at' := DoneAt(f), DoneAt(t);
      forall n, m | n in at' && m in sys.actions && sys.DependsOn(n, m)
        ensures m in at' && at'[m] < at'[n]
      {
        if n == e.name && !e.Start? {
          assert DependenciesDone(sys, s.done, n);
          assert m in s.done && m in at;
          assert m != n;
        }
      }
    }
  }

  /** A run that finished everything took the actions in dependency order. */
  lemma FinishedRunIsAcyclic(sys: System, t: seq<Event>)
    requires FinishedRun(sys, t)
    ensures sys.RankedBy(DoneAt(t))
  {
    RunInOrder(sys, t);
    RunConsistent(sys, t);
  }

  lemma {:induction false} DoneActionsKnown(sys: System, t: seq<Event>)
    requires IsRun(sys, t) && Uncancelled(t)
    ensures var s := After(sys, t);
            forall n, p :: n !in s.pending && n in sys.actions && p in sys.actions[n].predecessors && !p.glob ==> p.name in s.done
  {
    if t != [] {
      var f, s := Front(t), After(sys, Front(t));
      DoneActionsKnown(sys, f);
      RunConsistent(sys, f);
      var n := Last(t).name;
      if !Last(t).Finish? {
        forall p | p in sys.actions[n].predecessors && !p.glob ensures p.name in s.done {
          assert PredecessorDone(sys, s, p);
        }
      }
    }
  }

  /** The final `states` is the solution of the equation … */
  lemma FinishedRunExplained(sys: System, t: seq<Event>)
    requires FinishedRun(sys, t)
    ensures Explains(sys, After(sys, t).done)
  {
    RunSettled(sys, t);
    RunConsistent(sys, t);
  }

  /** … and so the same for every order of completion. */
  lemma ScheduleIndependence(sys: System, t: seq<Event>, u: seq<Event>)
    requires FinishedRun(sys, t)
    requires FinishedRun(sys, u)
    ensures After(sys, t).done == After(sys, u).done
  {
    FinishedRunIsAcyclic(sys, t);
    FinishedRunExplained(sys, t);
    FinishedRunExplained(sys, u);
    ExplanationUnique(sys, DoneAt(t), After(sys, t).done, After(sys, u).done);
  }

  // ----- Which actions are run

  ghost predicate StartedOnce(sys: System, s: State, t: seq<Event>) {
    forall n ::
      (Starts(t, n) <= 1)
      && (n in s.pending ==> Starts(t, n) == 0)
      && (n in s.running ==> Starts(t, n) == 1)
      && (n !in sys.actions ==> Starts(t, n) == 0)
  }

  lemma {:induction false} NeverStartedTwice(sys: System, t: seq<Event>)
    requires IsRun(sys, t)
    ensures StartedOnce(sys, After(sys, t), t)
  {
    if t != [] {
      NeverStartedTwice(sys, Front(t));
      RunConsistent(sys, Front(t));
    }
  }

  lemma {:induction false} StartedIffMet(sys: System, t: seq<Event>, n: string)
    requires IsRun(sys, t) && Uncancelled(t) && Honest(sys, t, false) && n in After(sys, t).done && n in sys.actions
    ensures Starts(t, n) == if RequirementsMet(sys, After(sys, t).done, n) then 1 else 0
  {
    var f, s, e := Front(t), After(sys, Front(t)), Last(t);
    RunConsistent(sys, f);
    RunSettled(sys, f);
    if n in s.done {
      StartedIffMet(sys, f, n);
    } else {
      NeverStartedTwice(sys, f);
      if e.Skip? { ReadyDependenciesDone(sys, s, n); }
    }
  }

  /** `go` is called on an action once if everything it requires succeeded,
      and otherwise never. */
  lemma RunsExactlyTheEarned(sys: System, t: seq<Event>, n: string)
    requires FinishedRun(sys, t) && n in sys.actions
    ensures Starts(t, n) == if RequirementsMet(sys, After(sys, t).done, n) then 1 else 0
  {
    RunConsistent(sys, t);
    StartedIffMet(sys, t, n);
  }

  // ----- Runs with a time limit

  ghost predicate Sound(sys: System, s: State) {
    (forall n :: n in s.running ==> RequirementsMet(sys, s.done, n))
    && forall n :: n in s.done && n in sys.actions && s.done[n] ==> Earned(sys, s.done, n)
  }

  lemma {:induction false} LimitedRunSound(sys: System, t: seq<Event>)
    requires IsRun(sys, t) && Honest(sys, t, true)
    ensures Sound(sys, After(sys, t))
    ensures forall n :: n in sys.actions && Starts(t, n) > 0 ==> RequirementsMet(sys, After(sys, t).done, n)
  {
    if t != [] {
      var f, s, e := Front(t), After(sys, Front(t)), Last(t);
      LimitedRunSound(sys, f);
      RunConsistent(sys, f);
      if e.Start? { ReadyDependenciesDone(sys, s, e.name); }
      forall n | RequirementsMet(sys, s.done, n) ensures RequirementsMet(sys, After(sys, t).done, n) {
        assert forall m :: m in s.done ==> m in After(sys, t).done && After(sys, t).done[m] == s.done[m];
      }
    }
  }

  lemma {:induction false} LimitedSuccessKept(sys: System, rank: map<string, nat>, done: map<string, bool>,
                                              full: map<string, bool>, n: string)
    requires sys.RankedBy(rank) && Explains(sys, full) && n in sys.actions
    requires forall m :: m in done && m in sys.actions && done[m] ==> Earned(sys, done, m)
    ensures n in done && done[n] ==> full[n]
    decreases rank[n]
  {
    assert Unfold(0);
    if n in done && done[n] {
      assert Earned(sys, done, n);
      forall m | m in sys.actions && sys.Requires(n, m) ensures full[m] {
        RequirementRanksLower(sys, rank, n, m);
        LimitedSuccessKept(sys, rank, done, full, m);
      }
      assert Earned(sys, full, n);
    }
  }

  /** A time limit can only turn success into failure and a started action
      into one not started, whatever is cancelled or killed. */
  lemma TimeLimitOnlyRemoves(sys: System, t: seq<Event>, u: seq<Event>, n: string)
    requires IsRun(sys, t) && Honest(sys, t, true)
    requires FinishedRun(sys, u)
    requires n in sys.actions
    ensures n in After(sys, u).done
    ensures n in After(sys, t).done && After(sys, t).done[n] ==> After(sys, u).done[n]
    ensures Starts(t, n) <= Starts(u, n)
  {
    var done, full := After(sys, t).done, After(sys, u).done;
    LimitedRunSound(sys, t);
    FinishedRunIsAcyclic(sys, u);
    FinishedRunExplained(sys, u);
    LimitedSuccessKept(sys, DoneAt(u), done, full, n);
    NeverStartedTwice(sys, t);
    RunsExactlyTheEarned(sys, u, n);
    if Starts(t, n) > 0 {
      forall m | m in sys.actions && sys.Requires(n, m) ensures m in full && full[m] {
        LimitedSuccessKept(sys, DoneAt(u), done, full, m);
      }
    }
  }

  // ----- Progress

  /** Nothing can be started or skipped. */
  ghost predicate Quiescent(sys: System, s: State) {
    forall n {:trigger Ready(sys, s, n)} :: n in s.pending ==> !Ready(sys, s, n)
  }

  /** What holds a pending action back: a running action that has one of its
      resources, or an unfinished action it depends on. */
  ghost predicate HeldBy(sys: System, s: State, n: string, m: string) {
    (m in s.running && exists r :: Uses(sys, n, r) && Uses(sys, m, r))
    || (s.Unfinished(m) && sys.DependsOn(n, m))
  }

  lemma QuiescentMeansHeld(sys: System, s: State, n: string)
    requires Consistent(sys, s) && sys.Closed() && Quiescent(sys, s) && n in s.pending
    ensures exists m :: HeldBy(sys, s, n, m)
  {
    assert !Ready(sys, s, n);
    if !ResourcesFree(sys, s, n) {
      var r :| r in s.resources && Uses(sys, n, r);
      var m :| m in s.running && Uses(sys, m, r);
      assert HeldBy(sys, s, n, m);
    } else {
      var p :| p in sys.actions[n].predecessors && !PredecessorDone(sys, s, p);
      if m :| s.Unfinished(m) && sys.Hits(p, m) {
        assert HeldBy(sys, s, n, m);
      } else {
        assert !p.glob && p.name !in s.done && p.name in sys.actions;
        assert sys.Hits(p, p.name) && s.Unfinished(p.name);
        assert false;
      }
    }
  }

  lemma {:induction false} LeastRanked(sys: System, rank: map<string, nat>, names: set<string>) returns (n: string)
    requires sys.RankedBy(rank) && names <= sys.actions.Keys && names != {}
    ensures n in names && forall m :: m in names ==> rank[n] <= rank[m]
  {
    n :| n in names;
    if names != {n} {
      var m := LeastRanked(sys, rank, names - {n});
      if rank[m] < rank[n] { n := m; }
    }
  }

  lemma LeastIsReady(sys: System, s: State, rank: map<string, nat>, n: string)
    requires Consistent(sys, s) && sys.Closed() && sys.RankedBy(rank) && s.running == {}
    requires n in s.pending && forall m :: m in s.pending ==> rank[n] <= rank[m]
    ensures Ready(sys, s, n)
  {
    assert Unfold(0);
    forall p | p in sys.actions[n].predecessors ensures PredecessorDone(sys, s, p) {
      forall m | s.Unfinished(m) ensures !sys.Hits(p, m) {
        assert rank[n] <= rank[m];
        assert !sys.DependsOn(n, m);
      }
      assert !p.glob ==> sys.Hits(p, p.name) && p.name in sys.actions;
    }
  }

  /** No deadlock: with acyclic dependencies on existing actions, whenever
      something is unfinished and nothing can be dispatched, something is
      running. */
  lemma SomethingRuns(sys: System, s: State)
    requires Consistent(sys, s) && sys.Closed() && sys.Acyclic() && Quiescent(sys, s) && !s.Complete()
    ensures s.running != {}
  {
    if s.running == {} {
      var rank :| sys.RankedBy(rank);
      var n := LeastRanked(sys, rank, s.pending);
      LeastIsReady(sys, s, rank, n);
    }
  }

  lemma NextEvent(sys: System, s: State) returns (e: Event)
    requires Consistent(sys, s) && sys.Closed() && sys.Acyclic() && !s.Complete()
    ensures Enabled(sys, s, e) && !e.Cancel?
    ensures e.Finish? ==> e.ok == sys.actions[e.name].outcome
  {
    if !Quiescent(sys, s) {
      var n :| n in s.pending && Ready(sys, s, n);
      e := if Doomed(sys, s, n) then Skip(n) else Start(n);
    } else {
      SomethingRuns(sys, s);
      var n :| n in s.running;
      e := Finish(n, sys.actions[n].outcome);
    }
  }

  lemma {:induction false} RunCompletes(sys: System, t: seq<Event>) returns (u: seq<Event>)
    requires IsRun(sys, t) && Uncancelled(t) && Honest(sys, t, false) && sys.Closed() && sys.Acyclic()
    ensures FinishedRun(sys, u) && t <= u
    decreases Effort(After(sys, t))
  {
    RunConsistent(sys, t);
    if After(sys, t).Complete() {
      u := t;
    } else {
      var e := NextEvent(sys, After(sys, t));
      var t' := t + [e];
      assert Front(t') == t && Last(t') == e;
      StepEffort(sys, After(sys, t), e);
      u := RunCompletes(sys, t');
    }
  }

  /** A list of actions can be finished exactly when its dependencies are on
      existing actions and form no cycle. */
  lemma FinishableIffAcyclic(sys: System)
    ensures (exists t :: FinishedRun(sys, t))
            <==> sys.Closed() && sys.Acyclic()
  {
    if t :| FinishedRun(sys, t) {
      FinishedRunIsAcyclic(sys, t);
      DoneActionsKnown(sys, t);
      RunConsistent(sys, t);
    }
    if sys.Closed() && sys.Acyclic() {
      var t := RunCompletes(sys, []);
      assert FinishedRun(sys, t);
    }
  }

  /** A glob dependency that matches the action's own name can never be met. */
  lemma {:induction false} SelfMatchNeverFinishes(sys: System, n: string, t: seq<Event>)
    requires sys.DependsOn(n, n)
    requires IsRun(sys, t) && Uncancelled(t) && Honest(sys, t, false)
    ensures n in After(sys, t).pending
  {
    RunInOrder(sys, t);
    RunConsistent(sys, t);
    RunSettled(sys, t);
  }
}
