/** What a run of an action list is, independently of how the list is coded:
    the states it goes through, the events that move it, and what holds of
    every finite sequence of events, however completions are ordered. */
module ActionRuns {
  import opened Common
  import opened Folding

  // ----- Actions and their dependencies

  /** One `after` constraint: an action name, or a glob pattern. */
  datatype Predecessor = Predecessor(name: string, succeeded: bool, glob: bool)

  datatype Definition = Definition(
    resources: seq<string>,
    predecessors: seq<Predecessor>,
    priority: int,
    outcome: bool)

  /** The actions that were added; `matches(pattern, name)` stands for
      `fnmatch` with `FNM_PATHNAME`. */
  datatype System = System(actions: map<string, Definition>, matches: (string, string) -> bool) {
    ghost predicate Hits(p: Predecessor, m: string) {
      if p.glob then matches(p.name, m) else p.name == m
    }

    /** `n` may not start before `m` is finished. */
    ghost predicate DependsOn(n: string, m: string) {
      n in actions && exists p :: p in actions[n].predecessors && Hits(p, m)
    }

    /** `n` may not start unless `m` succeeded. A glob dependency demands
        success whatever its flags say. */
    ghost predicate Requires(n: string, m: string) {
      n in actions && exists p :: p in actions[n].predecessors && Hits(p, m) && (p.glob || p.succeeded)
    }

    /** Every dependency on a name is on the name of an action. */
    ghost predicate Closed() {
      forall n, p :: n in actions && p in actions[n].predecessors && !p.glob ==> p.name in actions
    }

    /** Dependencies have lower ranks; folded. */
    ghost predicate RankedBy(rank: map<string, nat>) {
      rank.Keys == actions.Keys
      && forall k {:trigger Unfold(k)} :: Unfold(k) ==>
           forall n, m :: n in actions && m in actions && DependsOn(n, m) ==> rank[m] < rank[n]
    }

    ghost predicate Acyclic() {
      exists rank :: RankedBy(rank)
    }
  }

  // ----- States and events

  datatype State = State(pending: set<string>, running: set<string>, done: map<string, bool>, resources: set<string>) {
    ghost predicate Unfinished(n: string) { n in pending || n in running }
    ghost predicate Complete() { pending == {} && running == {} }
  }

  datatype Event =
    | Start(name: string)
    | Skip(name: string)
    | Finish(name: string, ok: bool)
    | Cancel(name: string)

  ghost function Initial(sys: System): State {
    State(sys.actions.Keys, {}, map[], {})
  }

  ghost predicate Uses(sys: System, n: string, r: string) {
    n in sys.actions && r in sys.actions[n].resources
  }

  ghost predicate ResourcesFree(sys: System, s: State, n: string) {
    forall r :: r in s.resources ==> !Uses(sys, n, r)
  }

  ghost predicate PredecessorDone(sys: System, s: State, p: Predecessor) {
    (forall m :: s.Unfinished(m) ==> !sys.Hits(p, m))
    && (!p.glob ==> p.name in s.done)
  }

  /** Neither a resource nor a predecessor holds the action back. */
  ghost predicate Ready(sys: System, s: State, n: string) {
    n in s.pending && n in sys.actions
    && ResourcesFree(sys, s, n)
    && forall p :: p in sys.actions[n].predecessors ==> PredecessorDone(sys, s, p)
  }

  ghost predicate Doomed(sys: System, s: State, n: string) {
    exists m :: m in s.done && !s.done[m] && sys.Requires(n, m)
  }

  ghost predicate Enabled(sys: System, s: State, e: Event) {
    match e
    case Start(n) => Ready(sys, s, n) && !Doomed(sys, s, n)
    case Skip(n) => Ready(sys, s, n) && Doomed(sys, s, n)
    case Finish(n, _) => n in s.running && n in sys.actions
    case Cancel(n) => n in s.pending
  }

  ghost function Apply(sys: System, s: State, e: Event): State {
    match e
    case Start(n) =>
      s.(pending := s.pending - {n}, running := s.running + {n},
         resources := s.resources + (if n in sys.actions then set r | r in sys.actions[n].resources else {}))
    case Skip(n) => s.(pending := s.pending - {n}, done := s.done[n := false])
    case Finish(n, ok) =>
      s.(running := s.running - {n}, done := s.done[n := ok],
         resources := s.resources - (if n in sys.actions then set r | r in sys.actions[n].resources else {}))
    case Cancel(n) => s.(pending := s.pending - {n}, done := s.done[n := false])
  }

  // ----- Runs

  ghost function After(sys: System, t: seq<Event>): State {
    if t == [] then Initial(sys) else Apply(sys, After(sys, Front(t)), Last(t))
  }

  ghost predicate IsRun(sys: System, t: seq<Event>) {
    t != [] ==> IsRun(sys, Front(t)) && Enabled(sys, After(sys, Front(t)), Last(t))
  }

  ghost predicate Uncancelled(t: seq<Event>) {
    t != [] ==> Uncancelled(Front(t)) && !Last(t).Cancel?
  }

  /** Actions report their own outcome, except that, in a run with a time
      limit, one that would have succeeded may be killed. */
  ghost predicate Honest(sys: System, t: seq<Event>, limited: bool) {
    t != [] ==> Honest(sys, Front(t), limited) && IsHonest(sys, Last(t), limited)
  }

  ghost predicate IsHonest(sys: System, e: Event, limited: bool) {
    e.Finish? && e.name in sys.actions ==> e.ok == sys.actions[e.name].outcome || (limited && !e.ok)
  }

  lemma {:induction false} HonestWithLimit(sys: System, t: seq<Event>)
    requires Honest(sys, t, false)
    ensures Honest(sys, t, true)
  {
    if t != [] { HonestWithLimit(sys, Front(t)); }
  }

  ghost function Starts(t: seq<Event>, n: string): nat {
    if t == [] then 0 else Starts(Front(t), n) + (if Last(t) == Start(n) then 1 else 0)
  }

  // ----- Exclusion and bookkeeping

  ghost predicate Consistent(sys: System, s: State) {
    s.pending + s.running + s.done.Keys == sys.actions.Keys
    && s.pending !! s.running && s.pending !! s.done.Keys && s.running !! s.done.Keys
    && (forall r :: r in s.resources <==> exists n :: n in s.running && Uses(sys, n, r))
    && forall n, m, r :: n in s.running && m in s.running && Uses(sys, n, r) && Uses(sys, m, r) ==> n == m
  }

  lemma StepConsistent(sys: System, s: State, e: Event)
    requires Consistent(sys, s) && Enabled(sys, s, e)
    ensures Consistent(sys, Apply(sys, s, e))
  {
    var s' := Apply(sys, s, e);
    match e
    case Start(n) =>
      forall r ensures r in s'.resources <==> exists m :: m in s'.running && Uses(sys, m, r) {
        if r in s.resources {
          var m :| m in s.running && Uses(sys, m, r);
          assert m in s'.running;
        }
        assert r in s'.resources <==> r in s.resources || Uses(sys, n, r);
      }
    case Finish(n, ok) =>
      forall r ensures r in s'.resources <==> exists m :: m in s'.running && Uses(sys, m, r) {
        if r in s'.resources {
          var m :| m in s.running && Uses(sys, m, r);
          assert m in s'.running;
        }
      }
    case Skip(n) =>
    case Cancel(n) =>
  }

  /** No two running actions share a resource, the set of resources in use is
      exactly what they use, and every action is in exactly one place. */
  lemma {:induction false} RunConsistent(sys: System, t: seq<Event>)
    requires IsRun(sys, t)
    ensures Consistent(sys, After(sys, t))
  {
    if t != [] {
      RunConsistent(sys, Front(t));
      StepConsistent(sys, After(sys, Front(t)), Last(t));
    }
  }

  // ----- Length of runs

  ghost function Effort(s: State): nat { 2 * |s.pending| + |s.running| }

  lemma StepEffort(sys: System, s: State, e: Event)
    requires Consistent(sys, s) && Enabled(sys, s, e)
    ensures Effort(Apply(sys, s, e)) < Effort(s)
  {
    var s' := Apply(sys, s, e);
    if e.Finish? {
      assert |s.running - {e.name}| == |s.running| - 1;
    } else {
      assert |s.pending - {e.name}| == |s.pending| - 1;
    }
  }

  /** A run has at most two events per action. */
  lemma {:induction false} RunLength(sys: System, t: seq<Event>)
    requires IsRun(sys, t)
    ensures |t| + Effort(After(sys, t)) <= 2 * |sys.actions|
  {
    if t == [] {
      assert |sys.actions.Keys| == |sys.actions|;
    } else {
      RunLength(sys, Front(t));
      RunConsistent(sys, Front(t));
      StepEffort(sys, After(sys, Front(t)), Last(t));
    }
  }
}
