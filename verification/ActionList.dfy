/** The scheduler as it is coded: a mutable list whose `Trigger`, `Completed` and
    `Cleanup` call each other re-entrantly, because an action may complete
    inside its own `go`. Each method is proved to extend
    a ghost trace that is a run in the sense of module ActionRuns. */
module ActionLists {
  import opened Common
  import opened Folding
  import opened Strings
  import opened ActionRuns
  import opened ActionOutcomes

  datatype Status = Pending | Running | Succeeded | Failed

  /** What the dispatcher may do next: fail the first ready action whose
      requirements failed, else start the first ready action of the highest
      priority, in the order of names. */
  ghost predicate Dispatches(sys: System, s: State, e: Event) {
    Enabled(sys, s, e)
    && match e
      case Skip(n) =>
        forall m :: Ready(sys, s, m) && Doomed(sys, s, m) && m != n ==> LexLess(n, m)
      case Start(n) =>
        forall m :: Ready(sys, s, m) && m != n ==>
                      !Doomed(sys, s, m) && Precedes(sys, n, m)
      case Finish(_, _) => true
      case Cancel(_) => true
  }

  ghost predicate Precedes(sys: System, n: string, m: string) {
    n in sys.actions && m in sys.actions
    && (sys.actions[m].priority < sys.actions[n].priority
        || (sys.actions[m].priority == sys.actions[n].priority && LexLess(n, m)))
  }

  /** A run in which every step is the dispatcher's choice. */
  ghost predicate IsDispatch(sys: System, t: seq<Event>) {
    forall k {:trigger After(sys, t[..k])} :: 0 <= k < |t| ==> Dispatches(sys, After(sys, t[..k]), t[k])
  }

  lemma {:induction false} DispatchIsRun(sys: System, t: seq<Event>)
    requires IsDispatch(sys, t)
    ensures IsRun(sys, t)
  {
    if t != [] {
      forall k {:trigger After(sys, Front(t)[..k])} | 0 <= k < |t| - 1
        ensures Dispatches(sys, After(sys, Front(t)[..k]), Front(t)[k])
      {
        assert Front(t)[..k] == t[..k];
      }
      DispatchIsRun(sys, Front(t));
      assert Dispatches(sys, After(sys, t[..|t| - 1]), t[|t| - 1]);
    }
  }

  /** When an action is started, every other that needs neither a resource nor a
      predecessor, and has a higher priority or the same and an earlier name,
      has been dispatched before. */
  lemma PriorityOrder(sys: System, t: seq<Event>, k: nat, n: string, m: string)
    requires IsDispatch(sys, t) && k < |t| && t[k] == Start(m)
    requires n in sys.actions && n != m && sys.actions[n].resources == [] && sys.actions[n].predecessors == []
    requires m in sys.actions
    requires sys.actions[n].priority > sys.actions[m].priority
             || (sys.actions[n].priority == sys.actions[m].priority && LexLess(n, m))
    ensures n !in After(sys, t[..k]).pending
  {
    var s := After(sys, t[..k]);
    assert Dispatches(sys, s, t[k]);
    if n in s.pending {
      assert Ready(sys, s, n);
      LexTrichotomy(n, m);
    }
  }

  /** `t` is a dispatcher's run that ended in state `s`. */
  ghost predicate RunTo(sys: System, t: seq<Event>, limited: bool, s: State) {
    IsDispatch(sys, t) && After(sys, t) == s
    && Honest(sys, t, limited) && (limited || Uncancelled(t))
  }

  /** `RunTo`, kept folded so that the verifier opens it only where a proof
      says `Unfold`. */
  ghost predicate Reached(sys: System, t: seq<Event>, limited: bool, s: State) {
    forall k {:trigger Unfold(k)} :: Unfold(k) ==> RunTo(sys, t, limited, s)
  }

  /** The dispatcher may take `e` next. */
  ghost predicate Permits(sys: System, t: seq<Event>, limited: bool, s: State, e: Event) {
    Reached(sys, t + [e], limited, Apply(sys, s, e))
  }

  lemma ReachedExtends(sys: System, t: seq<Event>, limited: bool, s: State, e: Event)
    requires Reached(sys, t, limited, s) && Dispatches(sys, s, e)
    requires e.Finish? && e.name in sys.actions ==> e.ok == sys.actions[e.name].outcome || (limited && !e.ok)
    requires e.Cancel? ==> limited
    ensures Permits(sys, t, limited, s, e)
  {
    assert Unfold(0);
    var u := t + [e];
    forall k {:trigger After(sys, u[..k])} | 0 <= k < |u| ensures Dispatches(sys, After(sys, u[..k]), u[k]) {
      if k < |t| {
        assert u[..k] == t[..k];
      } else {
        assert u[..k] == t;
      }
    }
    assert Front(u) == t && Last(u) == e;
  }

  lemma ReachedConsistent(sys: System, t: seq<Event>, limited: bool, s: State)
    requires Reached(sys, t, limited, s)
    ensures Consistent(sys, s) && IsRun(sys, t) && RunTo(sys, t, limited, s)
  {
    assert Unfold(0);
    DispatchIsRun(sys, t);
    RunConsistent(sys, t);
  }

  datatype Action = Action(name: string, synchronous: bool, outcome: bool, resources: seq<string>,
    predecessors: seq<Predecessor>, state: Status, priority: int) {
    ghost function Define(): Definition
    {
      Definition(resources, predecessors, priority, outcome)
    }
  }

  datatype Obstacle = Free | Blocked | UnknownName
  datatype Ending = Finished | Threw | Spins
  datatype Verdict = Startable | Waiting | Lost | Unmeetable
  datatype Choice = Nothing | Throw | Doom(name: string) | Launch(name: string)

  class ActionList {
    const matches: (string, string) -> bool
    var actions: map<string, Action>
    var states: map<string, Status>
    var resources: set<string>
    var limited: bool
    var expired: bool
    ghost var sys: System
    ghost var now: State
    ghost var trace: seq<Event>

    ghost predicate Shape()
      reads this`actions, this`states, this`resources, this`sys, this`now
    {
      sys.matches == matches
      && (forall n :: n in actions ==> n in sys.actions && actions[n].name == n && sys.actions[n] == actions[n].Define())
      && (forall n :: n in actions ==> actions[n].state == Pending || actions[n].state == Running)
      && (forall n :: n in now.pending <==> n in actions && actions[n].state == Pending)
      && (forall n :: n in now.running <==> n in actions && actions[n].state == Running)
      && now.done.Keys == states.Keys
      && (forall n :: n in states ==> states[n] == if now.done[n] then Succeeded else Failed)
      && now.resources == resources
    }

    ghost predicate Valid()
      reads this
    {
      Shape() && Reached(sys, trace, limited, now) && (expired ==> limited)
    }

    constructor (matches: (string, string) -> bool)
      ensures Valid() && !limited && trace == [] && actions == map[] && this.matches == matches
    {
      this.matches := matches;
      actions, states, resources := map[], map[], {};
      limited, expired := false, false;
      trace := [];
      sys := System(map[], matches);
      now := Initial(System(map[], matches));
    }

    method Add(a: Action) returns (thrown: bool)
      requires Valid() && trace == [] && a.state == Pending
      modifies this`actions, this`sys, this`now
      ensures Valid()
      ensures thrown <==> a.name in old(actions)
      ensures thrown ==> actions == old(actions) && sys == old(sys)
      ensures !thrown ==> actions == old(actions)[a.name := a] && sys.actions == old(sys).actions[a.name := a.Define()]
    {
      assert Unfold(0);
      assert now == Initial(sys);
      if a.name in actions {
        return true;
      }
      assert a.name !in now.pending;
      actions := actions[a.name := a];
      sys := System(sys.actions[a.name := a.Define()], matches);
      now := Initial(sys);
      return false;
    }

    /** What holds whenever control is outside the list's own code, so also
        inside the `go` of an action that it starts. */
    lemma Exclusion()
      requires Valid()
      ensures actions.Keys !! states.Keys && actions.Keys + states.Keys == sys.actions.Keys
      ensures forall r :: r in resources <==> exists n :: IsUsing(n, r)
      ensures forall n, m, r :: IsUsing(n, r) && IsUsing(m, r) ==> n == m
    {
      ReachedConsistent(sys, trace, limited, now);
      forall n, r ensures IsUsing(n, r) <==> n in now.running && Uses(sys, n, r) {
        assert n in actions ==> sys.actions[n] == actions[n].Define();
      }
    }

    ghost predicate IsUsing(n: string, r: string)
      reads this`actions
    {
      n in actions && actions[n].state == Running && r in actions[n].resources
    }

    /** A time limit; what has been done without one could have been done with
        it. */
    method SetLimit()
      requires Valid()
      modifies this`limited
      ensures Valid() && limited
    {
      assert Reached(sys, trace, true, now) by {
        assert Unfold(0);
        if !limited { HonestWithLimit(sys, trace); }
      }
      limited := true;
    }

    method BlockedByResource(a: Action) returns (blocked: bool)
      ensures blocked <==> exists r :: r in a.resources && r in resources
    {
      for i := 0 to |a.resources|
        invariant forall r :: r in a.resources[..i] ==> r !in resources
      {
        if a.resources[i] in resources { return true; }
      }
      return false;
    }

    /** Whether some unfinished action is meant by `p`. */
    method Find(p: Predecessor) returns (found: bool)
      requires Shape()
      ensures found <==> exists m :: now.Unfinished(m) && sys.Hits(p, m)
    {
      if p.glob {
        var keys := SortedKeys(actions.Keys);
        for i := 0 to |keys|
          invariant forall m :: m in keys[..i] ==> !sys.Hits(p, m)
        {
          if matches(p.name, keys[i]) {
            assert now.Unfinished(keys[i]) && sys.Hits(p, keys[i]);
            return true;
          }
        }
        return false;
      } else {
        assert now.Unfinished(p.name) <==> p.name in actions;
        assert sys.Hits(p, p.name);
        return p.name in actions;
      }
    }

    method BlockedByDependency(a: Action) returns (o: Obstacle)
      requires Shape()
      ensures o.Free? <==> forall p :: p in a.predecessors ==> PredecessorDone(sys, now, p)
      ensures !o.Free? ==>
                exists i :: 0 <= i < |a.predecessors|
                            && (forall p :: p in a.predecessors[..i] ==> PredecessorDone(sys, now, p))
                            && (o.UnknownName? <==> !a.predecessors[i].glob && a.predecessors[i].name !in states && a.predecessors[i].name !in actions)
    {
      for i := 0 to |a.predecessors|
        invariant forall p :: p in a.predecessors[..i] ==> PredecessorDone(sys, now, p)
      {
        var p := a.predecessors[i];
        var found := Find(p);
        if found {
          assert !PredecessorDone(sys, now, p);
          return Blocked;
        }
        if !p.glob && p.name !in states {
          assert !PredecessorDone(sys, now, p);
          assert now.Unfinished(p.name) <==> p.name in actions;
          return UnknownName;
        }
      }
      return Free;
    }

    method FailedByDependency(a: Action) returns (failed: bool)
      requires Shape() && a.name in actions && actions[a.name] == a
      ensures failed <==> Doomed(sys, now, a.name)
    {
      for i := 0 to |a.predecessors|
        invariant forall j, m :: 0 <= j < i && m in now.done && !now.done[m] && sys.Hits(a.predecessors[j], m)
                                 ==> !(a.predecessors[j].glob || a.predecessors[j].succeeded)
      {
        var p := a.predecessors[i];
        if p.glob {
          var keys := SortedKeys(states.Keys);
          for j := 0 to |keys|
            invariant forall m :: m in keys[..j] && sys.Hits(p, m) ==> now.done[m]
          {
            if matches(p.name, keys[j]) && states[keys[j]] != Succeeded {
              assert sys.Hits(p, keys[j]);
              assert sys.Requires(a.name, keys[j]);
              return true;
            }
          }
        } else if p.name in states && p.succeeded && states[p.name] != Succeeded {
          assert sys.Hits(p, p.name);
          assert sys.Requires(a.name, p.name);
          return true;
        }
      }
      return false;
    }

    lemma UnknownMeansOpen(a: Action)
      requires Valid() && a.name in actions && actions[a.name] == a
      requires exists p :: p in a.predecessors && !p.glob && p.name !in states && p.name !in actions
      ensures !sys.Closed()
    {
      ReachedConsistent(sys, trace, limited, now);
      var p :| p in a.predecessors && !p.glob && p.name !in states && p.name !in actions;
      assert p in sys.actions[a.name].predecessors;
      assert p.name !in sys.actions;
    }

    /** The tests `trigger` makes of one action. */
    method Consider(a: Action) returns (v: Verdict)
      requires Valid() && a.name in actions && actions[a.name] == a
      ensures Ready(sys, now, a.name) <==> v.Startable? || v.Lost?
      ensures v.Startable? ==> !Doomed(sys, now, a.name)
      ensures v.Lost? ==> Doomed(sys, now, a.name)
      ensures v.Unmeetable? ==> !sys.Closed()
    {
      assert sys.actions[a.name] == a.Define();
      if a.state != Pending { return Waiting; }
      var held := BlockedByResource(a);
      if held {
        var r :| r in a.resources && r in resources;
        assert Uses(sys, a.name, r);
        return Waiting;
      }
      var o := BlockedByDependency(a);
      if o.Blocked? { return Waiting; }
      if o.UnknownName? {
        UnknownMeansOpen(a);
        return Unmeetable;
      }
      var failed := FailedByDependency(a);
      return if failed then Lost else Startable;
    }

    /** One pass of `trigger` over the actions. */
    method Scan() returns (c: Choice)
      requires Valid()
      ensures c.Nothing? ==> Quiescent(sys, now)
      ensures c.Doom? ==> Dispatches(sys, now, Skip(c.name))
      ensures c.Launch? ==> Dispatches(sys, now, Start(c.name))
      ensures c.Throw? ==> !sys.Closed()
    {
      c := Nothing;
      var keys := SortedKeys(actions.Keys);
      for i := 0 to |keys|
        invariant c.Nothing? || (c.Launch? && c.name in keys[..i] && Ready(sys, now, c.name))
        invariant forall j :: 0 <= j < i ==> Passed(keys[j], c)
      {
        var n := keys[i];
        var v := Consider(actions[n]);
        match v
        case Waiting =>
        case Unmeetable => return Throw;
        case Lost =>
          DoomIsFirst(keys, i, c);
          return Doom(n);
        case Startable =>
          ghost var was := c;
          if c.Nothing? || actions[c.name].priority < actions[n].priority {
            c := Launch(n);
          }
          StartablePassed(keys, i, was, c);
      }
      LaunchIsBest(keys, c);
    }

    /** An action that can be started takes the place of the choice so far if its
        priority is higher. */
    lemma StartablePassed(keys: seq<string>, i: nat, c: Choice, next: Choice)
      requires Shape() && i < |keys| && keys[i] in actions && Ready(sys, now, keys[i]) && !Doomed(sys, now, keys[i])
      requires forall j :: 0 <= j < i ==> LexLess(keys[j], keys[i]) && Passed(keys[j], c)
      requires c.Nothing? || (c.Launch? && c.name in actions && LexLess(c.name, keys[i]))
      requires if c.Nothing? || actions[c.name].priority < actions[keys[i]].priority then next == Launch(keys[i]) else next == c
      ensures forall j :: 0 <= j <= i ==> Passed(keys[j], next)
    {
      forall j | 0 <= j < i ensures Passed(keys[j], next) {
        assert Passed(keys[j], c);
      }
    }

    lemma DoomIsFirst(keys: seq<string>, i: nat, c: Choice)
      requires Shape() && Ascending(keys) && i < |keys| && (forall n :: n in actions ==> n in keys)
      requires forall j :: 0 <= j < i ==> Passed(keys[j], c)
      requires Ready(sys, now, keys[i]) && Doomed(sys, now, keys[i])
      ensures Dispatches(sys, now, Skip(keys[i]))
    {
      forall m | Ready(sys, now, m) && Doomed(sys, now, m) && m != keys[i] ensures LexLess(keys[i], m) {
        var j :| 0 <= j < |keys| && keys[j] == m;
        assert !Passed(keys[j], c);
      }
    }

    lemma LaunchIsBest(keys: seq<string>, c: Choice)
      requires Shape() && (forall n :: n in actions ==> n in keys)
      requires forall j :: 0 <= j < |keys| ==> Passed(keys[j], c)
      requires c.Nothing? || (c.Launch? && Ready(sys, now, c.name))
      ensures if c.Nothing? then Quiescent(sys, now) else Dispatches(sys, now, Start(c.name))
    {
      forall n | Ready(sys, now, n) ensures Passed(n, c) {
        assert n in keys;
      }
      if c.Launch? { assert Passed(c.name, c); }
    }

    /** What the scan knows of an action it has passed, `c` being its choice
        so far. */
    ghost predicate Passed(n: string, c: Choice)
      reads this`sys, this`now
    {
      Ready(sys, now, n) ==>
        !Doomed(sys, now, n) && c.Launch? && (n == c.name || Precedes(sys, c.name, n))
    }

    /** The outcome of a scan, as the next step of the run. */
    method Select() returns (c: Choice)
      requires Valid()
      ensures c.Nothing? ==> Quiescent(sys, now)
      ensures c.Doom? ==> c.name in now.pending && Permits(sys, trace, limited, now, Skip(c.name))
      ensures c.Launch? ==> c.name in now.pending && Permits(sys, trace, limited, now, Start(c.name))
      ensures c.Throw? ==> !sys.Closed()
    {
      c := Scan();
      if c.Doom? { ReachedExtends(sys, trace, limited, now, Skip(c.name)); }
      if c.Launch? { ReachedExtends(sys, trace, limited, now, Start(c.name)); }
    }

    /** The part of `trigger` that marks the chosen action as running. */
    method Launching(a: Action)
      requires Valid() && a.name in actions && actions[a.name] == a && Permits(sys, trace, limited, now, Start(a.name))
      requires a.state == Pending
      modifies this`actions, this`resources, this`now, this`trace
      ensures Valid() && actions == old(actions)[a.name := a.(state := Running)] && trace == old(trace) + [Start(a.name)]
      ensures |now.pending| < |old(now).pending|
    {
      MarkRunning(a);
      trace := trace + [Start(a.name)];
    }

    method MarkRunning(a: Action)
      requires Shape() && a.name in actions && actions[a.name] == a && a.state == Pending
      modifies this`actions, this`resources, this`now
      ensures Shape() && actions == old(actions)[a.name := a.(state := Running)] && now == Apply(sys, old(now), Start(a.name))
      ensures |now.pending| < |old(now).pending|
    {
      actions := actions[a.name := a.(state := Running)];
      resources := resources + set r | r in a.resources;
      now := Apply(sys, now, Start(a.name));
      assert sys.actions[a.name] == a.Define();
      assert |old(now).pending - {a.name}| == |old(now).pending| - 1;
    }

    /** The part of `cleanup` that precedes `done` and `trigger`, for an action
        that ran … */
    method RecordRan(a: Action, succeeded: bool)
      requires Shape() && a.name in actions && actions[a.name] == a && a.state == Running
      modifies this`actions, this`states, this`resources, this`now
      ensures Shape() && now == Apply(sys, old(now), Finish(a.name, succeeded))
    {
      assert sys.actions[a.name] == a.Define();
      resources := resources - set r | r in a.resources;
      actions := actions - {a.name};
      states := states[a.name := if succeeded then Succeeded else Failed];
      now := Apply(sys, now, Finish(a.name, succeeded));
      assert resources == now.resources;
    }

    /** … and for one that did not. */
    method RecordNotRun(a: Action)
      requires Shape() && a.name in actions && actions[a.name] == a && a.state == Pending
      modifies this`actions, this`states, this`now
      ensures Shape() && now == Apply(sys, old(now), Skip(a.name))
      ensures |now.pending| < |old(now).pending|
    {
      actions := actions - {a.name};
      states := states[a.name := Failed];
      now := Apply(sys, now, Skip(a.name));
      assert |old(now).pending - {a.name}| == |old(now).pending| - 1;
    }

    method Cleanup(a: Action, succeeded: bool, ran: bool, ghost e: Event) returns (thrown: bool)
      requires Valid() && a.name in actions && actions[a.name] == a
      requires Permits(sys, trace, limited, now, e) && e.name == a.name
      requires if ran then a.state == Running && e == Finish(a.name, succeeded) else a.state == Pending && !succeeded && (e.Skip? || e.Cancel?)
      modifies this`actions, this`states, this`resources, this`expired, this`now, this`trace
      ensures Valid() && old(trace) + [e] <= trace
      ensures !ran ==> !thrown && trace == old(trace) + [e] && |now.pending| < |old(now).pending|
      ensures !ran ==> now.pending == old(now.pending) - {a.name} && now.running == old(now.running) && now.done == old(now.done)[a.name := false]
      ensures ran && !thrown ==> Quiescent(sys, now)
      ensures |now.pending| <= |old(now).pending|
      ensures thrown ==> !sys.Closed()
      ensures old(expired) ==> expired
      decreases |now.pending|, if ran then 6 else 1
    {
      if ran {
        RecordRan(a, succeeded);
      } else {
        RecordNotRun(a);
      }
      trace := trace + [e];
      thrown := false;
      if ran {
        thrown := Trigger();
      }
    }

    method Completed(a: Action, succeeded: bool) returns (thrown: bool)
      requires Valid() && a.name in actions && actions[a.name] == a && a.state == Running
      requires succeeded == a.outcome || (limited && !succeeded)
      modifies this`actions, this`states, this`resources, this`expired, this`now, this`trace
      ensures Valid() && old(trace) + [Finish(a.name, succeeded)] <= trace
      ensures !thrown ==> Quiescent(sys, now)
      ensures |now.pending| <= |old(now).pending|
      ensures thrown ==> !sys.Closed()
      ensures old(expired) ==> expired
      decreases |now.pending|, 7
    {
      assert sys.actions[a.name] == a.Define();
      ReachedExtends(sys, trace, limited, now, Finish(a.name, succeeded));
      thrown := Cleanup(a, succeeded, true, Finish(a.name, succeeded));
    }

    method CancelOne(n: string)
      requires Valid() && limited && n in now.pending
      modifies this`actions, this`states, this`resources, this`expired, this`now, this`trace
      ensures Valid() && old(trace) <= trace
      ensures now.pending == old(now.pending) - {n} && now.running == old(now.running) && now.done == old(now.done)[n := false]
      ensures |now.pending| <= |old(now).pending|
      ensures old(expired) ==> expired
      decreases |now.pending|, 2
    {
      ReachedExtends(sys, trace, limited, now, Cancel(n));
      var _ := Cleanup(actions[n], false, false, Cancel(n));
    }

    /** The time limit has passed: give up on whatever has not started. */
    method CancelPending()
      requires Valid() && limited
      modifies this`actions, this`states, this`resources, this`expired, this`now, this`trace
      ensures Valid() && old(trace) <= trace
      ensures now.pending == {} && now.running == old(now.running)
      ensures forall n :: n in old(now).pending ==> n in now.done && !now.done[n]
      ensures old(expired) ==> expired
      decreases |now.pending|, 3
    {
      var keys := SortedKeys(set n | n in actions && actions[n].state == Pending);
      assert keys[0..] == keys && now.pending == Members(keys);
      for i := 0 to |keys|
        invariant Valid() && old(trace) <= trace
        invariant now.pending == Members(keys[i..])
        invariant |now.pending| <= |old(now).pending|
        invariant now.running == old(now.running)
        invariant forall n :: n in old(now).pending && n !in now.pending ==> n in now.done && !now.done[n]
        invariant old(expired) ==> expired
      {
        MembersAfter(keys, i);
        CancelOne(keys[i]);
      }
    }

    /** The part of `trigger` about the time limit; the clock may be found to have
        passed it at any time. */
    method GiveUp() returns (over: bool)
      requires Valid()
      modifies this`actions, this`states, this`resources, this`expired, this`now, this`trace
      ensures Valid() && old(trace) <= trace
      ensures if over then limited && now.pending == {} else now == old(now) && trace == old(trace)
      ensures |now.pending| <= |old(now).pending|
      ensures old(expired) ==> expired
      ensures old(expired) && limited ==> over
      decreases |now.pending|, 4
    {
      if limited {
        if !expired { expired := *; }
        if expired {
          CancelPending();
          return true;
        }
      }
      return false;
    }

    /** Start what can be started, fail what can no longer succeed, until
        neither is possible; once the time limit has passed, give up on
        whatever has not started. */
    method Trigger() returns (thrown: bool)
      requires Valid()
      modifies this`actions, this`states, this`resources, this`expired, this`now, this`trace
      ensures Valid() && old(trace) <= trace
      ensures !thrown ==> Quiescent(sys, now)
      ensures |now.pending| <= |old(now).pending|
      ensures thrown ==> !sys.Closed()
      ensures old(expired) ==> expired
      ensures old(expired) && limited ==> !thrown && now.pending == {}
      decreases |now.pending|, 5
    {
      var over := GiveUp();
      if over { return false; }
      var c := Select();
      if c.Nothing? { return false; }
      if c.Throw? { return true; }
      thrown := Dispatch(c);
      if !thrown { thrown := Trigger(); }
    }

    /** The part of `trigger` that acts on the outcome of the scan. */
    method Dispatch(c: Choice) returns (thrown: bool)
      requires Valid() && (c.Doom? || c.Launch?) && c.name in now.pending
      requires Permits(sys, trace, limited, now, if c.Doom? then Skip(c.name) else Start(c.name))
      modifies this`actions, this`states, this`resources, this`expired, this`now, this`trace
      ensures Valid() && old(trace) + [if c.Doom? then Skip(c.name) else Start(c.name)] <= trace
      ensures |now.pending| < |old(now).pending|
      ensures thrown ==> !sys.Closed()
      ensures old(expired) ==> expired
      decreases |now.pending|, 2
    {
      if c.Doom? {
        thrown := Cleanup(actions[c.name], false, false, Skip(c.name));
      } else {
        Launching(actions[c.name]);
        thrown := Go(actions[c.name]);
      }
    }

    /** An action's own `go`: it may report completion before it returns. */
    method Go(a: Action) returns (thrown: bool)
      requires Valid() && a.name in actions && actions[a.name] == a && a.state == Running
      modifies this`actions, this`states, this`resources, this`expired, this`now, this`trace
      ensures Valid()
      ensures if a.synchronous then old(trace) + [Finish(a.name, a.outcome)] <= trace else trace == old(trace) && !thrown
      ensures |now.pending| <= |old(now).pending|
      ensures thrown ==> !sys.Closed()
      ensures old(expired) ==> expired
      decreases |now.pending|, 8
    {
      thrown := false;
      if a.synchronous {
        thrown := Completed(a, a.outcome);
      }
    }

    /** `EventLoop::wait`: the running actions complete, in any order, and so do
        those that are started meanwhile. */
    method Wait() returns (thrown: bool)
      requires Valid() && Quiescent(sys, now)
      modifies this`actions, this`states, this`resources, this`expired, this`now, this`trace
      ensures Valid() && old(trace) <= trace
      ensures !thrown ==> Quiescent(sys, now) && now.running == {}
      ensures thrown ==> !sys.Closed()
      ensures old(expired) ==> expired
      ensures |now.pending| <= |old(now).pending|
    {
      thrown := false;
      LengthBounded();
      var busy := set n | n in actions && actions[n].state == Running;
      while busy != {}
        invariant Valid() && old(trace) <= trace && Quiescent(sys, now)
        invariant busy == now.running && |now.pending| <= |old(now).pending|
        invariant old(expired) ==> expired
        invariant |trace| <= 2 * |sys.actions|
        decreases 2 * |sys.actions| - |trace|
      {
        var n :| n in busy;
        var ok := actions[n].outcome;
        if limited {
          var killed: bool := *;
          ok := ok && !killed;
        }
        thrown := Completed(actions[n], ok);
        if thrown { return; }
        LengthBounded();
        busy := set n | n in actions && actions[n].state == Running;
      }
    }

    lemma LengthBounded()
      requires Valid()
      ensures |trace| <= 2 * |sys.actions|
    {
      ReachedConsistent(sys, trace, limited, now);
      RunLength(sys, trace);
    }

    /** One turn of the loop of `go`. */
    method Round() returns (thrown: bool)
      requires Valid()
      modifies this`actions, this`states, this`resources, this`expired, this`now, this`trace
      ensures Valid() && old(trace) <= trace
      ensures thrown ==> !sys.Closed()
      ensures old(expired) ==> expired
      ensures !thrown && sys.Closed() && sys.Acyclic() ==> actions.Keys == {}
      ensures !thrown && old(expired) && limited ==> actions.Keys == {}
    {
      thrown := Trigger();
      if !thrown { thrown := Wait(); }
      if !thrown { NothingLeft(); }
    }

    lemma NothingLeft()
      requires Valid() && Quiescent(sys, now) && now.running == {}
      ensures sys.Closed() && sys.Acyclic() ==> actions.Keys == {}
      ensures |now.pending| == 0 ==> actions.Keys == {}
    {
      ReachedConsistent(sys, trace, limited, now);
      if sys.Closed() && sys.Acyclic() && !now.Complete() { SomethingRuns(sys, now); }
      if n :| n in actions { assert n in now.pending; }
    }

    lemma Conclude()
      requires Valid() && actions.Keys == {}
      ensures states.Keys == sys.actions.Keys
      ensures !limited ==> Explains(sys, Results()) && sys.Closed() && sys.Acyclic()
    {
      ReachedConsistent(sys, trace, limited, now);
      assert now.pending == {} && now.running == {};
      if !limited {
        FinishedRunIsAcyclic(sys, trace);
        DoneActionsKnown(sys, trace);
        FinishedRunExplained(sys, trace);
        assert now.done == Results();
      }
    }

    ghost function Results(): map<string, bool>
      reads this`states
    {
      map n | n in states :: states[n] == Succeeded
    }

    /** Start and finish everything. Without a limit the loop of `go` ends
        normally exactly when the dependencies are acyclic and on existing
        actions, and then `states` is determined by the actions alone. `Spins`
        stands for a loop that goes round for ever without a change. */
    method Run() returns (e: Ending)
      requires Valid() && trace == []
      modifies this`actions, this`states, this`resources, this`expired, this`now, this`trace
      ensures Valid()
      ensures e.Finished? ==> actions.Keys == {} && states.Keys == sys.actions.Keys
      ensures e.Finished? && !limited ==> Explains(sys, Results())
      ensures !limited ==> (e.Finished? <==> sys.Closed() && sys.Acyclic())
      ensures limited && sys.Closed() ==> e.Finished?
    {
      while actions.Keys != {}
        invariant Valid()
        decreases if expired then 0 else 1, |actions.Keys|
      {
        var thrown := Round();
        if thrown { return Threw; }
        if actions.Keys != {} {
          if !limited { return Spins; }
          expired := true;
        }
      }
      e := Finished;
      Conclude();
    }
  }
}
