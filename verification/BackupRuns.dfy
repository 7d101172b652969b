/** What holds in every interleaving of the backup threads. */
module BackupRuns {
  import opened Common
  import opened Folding
  import opened BackupProtocol

  // ----- Limits

  lemma TakeCounted(limits: map<string, int>, held: seq<Option<string>>, v: nat, k: string)
    requires Counted(limits, held) && v < |held| && held[v] == None && Usable(limits, k)
    ensures Counted(Adjust(limits, k, -1), held[v := Some(k)])
  {
    var held' := held[v := Some(k)];
    assert held'[v] == Some(k);
    forall j | j in limits && limits[j] == 0 ensures Some(j) in held' {
      var w :| 0 <= w < |held| && held[w] == Some(j);
      assert held'[w] == Some(j);
    }
  }

  lemma ReleaseCounted(limits: map<string, int>, held: seq<Option<string>>, v: nat)
    requires Counted(limits, held) && v < |held| && held[v].Some?
    ensures Counted(Adjust(limits, held[v].value, 1), held[v := None])
  {
    var held' := held[v := None];
    forall j | j in limits && limits[j] == 0 && j != held[v].value ensures Some(j) in held' {
      var w :| 0 <= w < |held| && held[w] == Some(j);
      assert held'[w] == Some(j);
    }
  }

  lemma DevicesCounted(c: Config, s: System)
    requires Sound(c, s)
    ensures s.deviceUnused.Keys == c.devices && Counted(s.deviceUnused, DevicesHeld(s))
  {
    assert Unfold(0);
  }

  lemma GroupsCounted(c: Config, s: System)
    requires Sound(c, s)
    ensures forall v :: 0 <= v < |c.volumes| ==> Group(c, v) in s.groupUnused
    ensures Counted(s.groupUnused, GroupsHeld(c, s))
  {
    assert Unfold(0);
  }

  lemma StepDevices(c: Config, s: System, e: Event)
    requires Sound(c, s) && Enabled(c, s, e)
    ensures Counted(Apply(c, s, e).deviceUnused, DevicesHeld(Apply(c, s, e)))
    ensures Apply(c, s, e).deviceUnused.Keys == c.devices
  {
    DevicesCounted(c, s);
    var s' := Apply(c, s, e);
    if e.Take? {
      TakeCounted(s.deviceUnused, DevicesHeld(s), e.v, e.d);
      assert DevicesHeld(s') == DevicesHeld(s)[e.v := Some(e.d)];
    } else if e.Release? {
      ReleaseCounted(s.deviceUnused, DevicesHeld(s), e.v);
      assert DevicesHeld(s') == DevicesHeld(s)[e.v := None];
    } else {
      assert DevicesHeld(s') == DevicesHeld(s);
    }
  }

  lemma StepGroups(c: Config, s: System, e: Event)
    requires Sound(c, s) && Enabled(c, s, e)
    ensures Counted(Apply(c, s, e).groupUnused, GroupsHeld(c, Apply(c, s, e)))
    ensures forall v :: 0 <= v < |c.volumes| ==> Group(c, v) in Apply(c, s, e).groupUnused
  {
    GroupsCounted(c, s);
    var s' := Apply(c, s, e);
    if e.Take? {
      TakeCounted(s.groupUnused, GroupsHeld(c, s), e.v, Group(c, e.v));
      assert GroupsHeld(c, s') == GroupsHeld(c, s)[e.v := Some(Group(c, e.v))];
    } else if e.Release? {
      ReleaseCounted(s.groupUnused, GroupsHeld(c, s), e.v);
      assert GroupsHeld(c, s') == GroupsHeld(c, s)[e.v := None];
    } else {
      assert GroupsHeld(c, s') == GroupsHeld(c, s);
    }
  }

  // ----- The lock and the waiters

  lemma StepLock(c: Config, s: System, e: Event)
    requires Sound(c, s) && Enabled(c, s, e)
    ensures LockHeld(Apply(c, s, e))
  {
    assert Unfold(0);
  }

  lemma StepWaiter(c: Config, s: System, e: Event, v: nat)
    requires Sound(c, s) && Enabled(c, s, e) && v < |s.threads| && Apply(c, s, e).threads[v].at.Waiting?
    ensures Apply(c, s, e).threads[v].Looping()
    ensures forall d :: !CanTake(c, Apply(c, s, e), v, d)
    ensures !e.Erase? && !e.Release?
  {
    assert Unfold(0);
    assert e == Sleep(v) || (e.v != v && s.threads[v].at.Waiting?);
    forall d ensures !CanTake(c, Apply(c, s, e), v, d) {
      assert !CanTake(c, s, v, d);
    }
  }

  lemma StepWaiters(c: Config, s: System, e: Event)
    requires Sound(c, s) && Enabled(c, s, e)
    ensures WaitersBlocked(c, Apply(c, s, e))
  {
    assert Unfold(0);
    var s' := Apply(c, s, e);
    forall v | 0 <= v < |s'.threads| && s'.threads[v].at.Waiting?
      ensures s'.threads[v].Looping() && (forall d :: !CanTake(c, s', v, d))
      ensures forall w :: 0 <= w < |s'.threads| ==> !s'.threads[w].at.Releasing?
    {
      StepWaiter(c, s, e, v);
    }
  }

  // ----- Accounts

  lemma StepHooks(def: VolumeDef, t: Thread, e: Event)
    requires HooksAccounted(def, t) && !t.at.Ended?
    requires e.Exit? ==> !t.Looping()
    requires e.Take? ==> t.Looping()
    requires e.FailHook? ==> t.at.Chosen? && t.hook.NotRun? && def.hasPreHook
    requires e.Copy? ==> t.at.Chosen?
    ensures HooksAccounted(def, Local(def, t, e))
  {
  }

  lemma StepAttempts(all: set<string>, def: VolumeDef, t: Thread, e: Event)
    requires Accounted(all, def, t)
    requires e.Take? ==> t.at.Testing? && e.d in t.devices
    requires e.Decline? || e.FailHook? || e.Copy? ==> t.at.Chosen?
    requires e.Erase? ==> t.at.Returned?
    requires e.Acquire? || e.Release? || e.Sleep? || e.Wake? || e.Exit? ==> !t.at.Chosen? && !t.at.Returned?
    requires e.Release? || e.Sleep? || e.Wake? || e.Exit? ==> !t.at.Copying?
    requires HooksAccounted(def, Local(def, t, e))
    ensures Accounted(all, def, Local(def, t, e))
  {
    var t' := Local(def, t, e);
    if e.Take? {
      assert t'.attempts == t.attempts + [e.d];
      assert e.d !in t.attempts;
    }
  }

  lemma ThreadAccounted(c: Config, s: System, v: nat)
    requires Sound(c, s) && v < |s.threads|
    ensures Accounted(c.devices, c.volumes[v], s.threads[v])
  {
    assert Unfold(0);
  }

  lemma StepAccounted(c: Config, s: System, e: Event, v: nat)
    requires Sound(c, s) && Enabled(c, s, e) && v < |s.threads|
    ensures Accounted(c.devices, c.volumes[v], Apply(c, s, e).threads[v])
  {
    var t := s.threads[v];
    ThreadAccounted(c, s, v);
    if v == e.v {
      StepHooks(c.volumes[v], t, e);
      StepAttempts(c.devices, c.volumes[v], t, e);
      assert Apply(c, s, e).threads[v] == Local(c.volumes[v], t, e);
    } else {
      assert Apply(c, s, e).threads[v] == t || Apply(c, s, e).threads[v] == Notified(t);
    }
  }

  lemma {:induction false} RunSound(c: Config, r: seq<Event>)
    requires IsRun(c, r)
    ensures Sound(c, After(c, r))
  {
    if r != [] {
      var s, e := After(c, Front(r)), Last(r);
      RunSound(c, Front(r));
      StepLock(c, s, e);
      StepDevices(c, s, e);
      StepGroups(c, s, e);
      StepWaiters(c, s, e);
      forall v | 0 <= v < |s.threads| ensures Accounted(c.devices, c.volumes[v], After(c, r).threads[v]) {
        StepAccounted(c, s, e, v);
      }
    } else {
      forall v | 0 <= v < |c.volumes| ensures Group(c, v) in Initial(c).groupUnused {
        assert c.volumes[v] in c.volumes;
      }
    }
  }

  // ----- Exclusion

  ghost function Holders(held: seq<Option<string>>, k: string): set<nat> {
    set v | 0 <= v < |held| && held[v] == Some(k)
  }

  lemma CountedHolders(limits: map<string, int>, held: seq<Option<string>>, k: string)
    requires Counted(limits, held) && k in limits
    ensures |Holders(held, k)| <= 1 && limits[k] == 1 - |Holders(held, k)|
  {
    if Some(k) in held {
      var v :| 0 <= v < |held| && held[v] == Some(k);
      assert Holders(held, k) == {v};
    } else {
      assert Holders(held, k) == {};
    }
  }

  /** In every interleaving at most one job has a device and at most one has a
      concurrency group, and each counter says how many have not. */
  lemma Exclusion(c: Config, r: seq<Event>)
    requires IsRun(c, r)
    ensures var s := After(c, r);
            |s.threads| == |c.volumes|
            && (forall d :: d in s.deviceUnused ==>
                  |Holders(DevicesHeld(s), d)| <= 1 && s.deviceUnused[d] == 1 - |Holders(DevicesHeld(s), d)|)
            && (forall g :: g in s.groupUnused ==>
                  |Holders(GroupsHeld(c, s), g)| <= 1 && s.groupUnused[g] == 1 - |Holders(GroupsHeld(c, s), g)|)
  {
    assert Unfold(0);
    RunSound(c, r);
    var s := After(c, r);
    forall d | d in s.deviceUnused
      ensures |Holders(DevicesHeld(s), d)| <= 1 && s.deviceUnused[d] == 1 - |Holders(DevicesHeld(s), d)|
    {
      CountedHolders(s.deviceUnused, DevicesHeld(s), d);
    }
    forall g | g in s.groupUnused
      ensures |Holders(GroupsHeld(c, s), g)| <= 1 && s.groupUnused[g] == 1 - |Holders(GroupsHeld(c, s), g)|
    {
      CountedHolders(s.groupUnused, GroupsHeld(c, s), g);
    }
  }

  // ----- No lost wakeup, no deadlock

  /** `w` has a limit that `v` needs for some device it has yet to deal with. */
  ghost predicate Obstructs(c: Config, s: System, w: nat, v: nat)
    requires v < |s.threads| == |c.volumes| && w < |s.threads|
  {
    w != v && s.threads[w].HoldsAny()
    && (Group(c, w) == Group(c, v) || s.threads[w].at.device in s.threads[v].devices)
  }

  lemma WaiterCannotTake(c: Config, s: System, v: nat) returns (d: string)
    requires Sound(c, s) && v < |s.threads| && s.threads[v].at.Waiting?
    ensures d in s.threads[v].devices && d in c.devices && !CanTake(c, s, v, d)
  {
    ThreadAccounted(c, s, v);
    assert Unfold(0);
    d :| d in s.threads[v].devices;
  }

  lemma GroupHolder(c: Config, s: System, v: nat) returns (w: nat)
    requires Sound(c, s) && v < |s.threads|
    requires !Usable(s.groupUnused, Group(c, v))
    ensures w < |s.threads| && GroupsHeld(c, s)[w] == Some(Group(c, v))
  {
    assert Unfold(0);
    w :| 0 <= w < |s.threads| && GroupsHeld(c, s)[w] == Some(Group(c, v));
  }

  lemma DeviceHolder(c: Config, s: System, d: string) returns (w: nat)
    requires Sound(c, s) && d in c.devices && !Usable(s.deviceUnused, d)
    ensures w < |s.threads| && DevicesHeld(s)[w] == Some(d)
  {
    assert Unfold(0);
    w :| 0 <= w < |s.threads| && DevicesHeld(s)[w] == Some(d);
  }

  /** A thread in `cond.wait` has no limit itself, and another thread has one it
      needs; that thread will notify it before it gives the limit up. */
  lemma WaiterIsObstructed(c: Config, s: System, v: nat)
    requires Sound(c, s) && v < |s.threads| && s.threads[v].at.Waiting?
    ensures !s.threads[v].HoldsAny()
    ensures exists w: nat :: w < |s.threads| && Obstructs(c, s, w, v)
  {
    var d := WaiterCannotTake(c, s, v);
    if !Usable(s.groupUnused, Group(c, v)) {
      var w := GroupHolder(c, s, v);
      assert Obstructs(c, s, w, v);
    } else {
      var w := DeviceHolder(c, s, d);
      assert Obstructs(c, s, w, v);
    }
  }

  ghost predicate AllEnded(s: System) {
    forall v :: 0 <= v < |s.threads| ==> s.threads[v].at.Ended?
  }

  lemma HolderCanStep(c: Config, s: System, v: nat) returns (e: Event)
    requires Sound(c, s) && v < |s.threads| && s.threads[v].HasLock()
    ensures Enabled(c, s, e) && !e.Wake? && Willing(e)
  {
    assert Unfold(0);
    var t := s.threads[v];
    match t.at
    case Testing =>
      if !t.Looping() {
        e := Exit(v);
      } else if d :| CanTake(c, s, v, d) {
        e := Take(v, d);
      } else {
        e := Sleep(v);
      }
    case Chosen(_) => e := Copy(v, true);
    case Returned(_) => e := Erase(v);
    case Releasing(_) => e := Release(v);
  }

  /** As long as some thread has not ended, some thread can go on without a
      spurious wakeup, and without giving up a device. */
  lemma NoDeadlock(c: Config, s: System) returns (e: Event)
    requires Sound(c, s) && !AllEnded(s)
    ensures Enabled(c, s, e) && !e.Wake? && Willing(e)
  {
    assert Unfold(0);
    var v :| 0 <= v < |s.threads| && !s.threads[v].at.Ended?;
    if s.lock.Some? {
      e := HolderCanStep(c, s, s.lock.value);
    } else if s.threads[v].at.Waiting? {
      WaiterIsObstructed(c, s, v);
      var w: nat :| w < |s.threads| && Obstructs(c, s, w, v);
      e := Acquire(w);
    } else {
      e := Acquire(v);
    }
  }

  // ----- Every run is finite

  ghost function Rank(p: Place): nat {
    match p
    case Unborn => 7
    case Testing => 5
    case Chosen(_) => 4
    case Copying(_) => 3
    case Returned(_) => 2
    case Releasing(_) => 6
    case Waiting => 1
    case Woken => 6
    case Ended => 0
  }

  ghost function Work(weight: nat, t: Thread): nat { |t.devices| * weight + Rank(t.at) }

  ghost function TotalWork(weight: nat, ts: seq<Thread>): nat {
    if ts == [] then 0 else Work(weight, ts[0]) + TotalWork(weight, ts[1..])
  }

  lemma {:induction false} TotalWorkUpdate(weight: nat, ts: seq<Thread>, v: nat, t: Thread)
    requires v < |ts|
    ensures TotalWork(weight, ts[v := t]) + Work(weight, ts[v]) == TotalWork(weight, ts) + Work(weight, t)
  {
    if v == 0 {
      assert ts[v := t][1..] == ts[1..];
    } else {
      assert ts[v := t][1..] == ts[1..][v - 1 := t];
      TotalWorkUpdate(weight, ts[1..], v - 1, t);
    }
  }

  lemma {:induction false} TotalWorkNotified(weight: nat, ts: seq<Thread>)
    ensures TotalWork(weight, NotifyAll(ts)) <= TotalWork(weight, ts) + 5 * |ts|
  {
    if ts != [] {
      assert NotifyAll(ts)[1..] == NotifyAll(ts[1..]);
      TotalWorkNotified(weight, ts[1..]);
    }
  }

  ghost function Weight(c: Config): nat { 5 * |c.volumes| + 5 }

  lemma EraseWork(weight: nat, def: VolumeDef, t: Thread, v: nat)
    requires t.at.Returned? && t.at.device in t.devices
    ensures Work(weight, Local(def, t, Erase(v))) + weight == Work(weight, t) + 4
  {
    var t' := Local(def, t, Erase(v));
    assert t'.devices == t.devices - {t.at.device};
    assert |t.devices| == |t'.devices| + 1;
    assert (|t'.devices| + 1) * weight == |t'.devices| * weight + weight;
  }

  lemma OtherWork(weight: nat, c: Config, s: System, e: Event)
    requires Enabled(c, s, e) && !e.Erase?
    ensures Work(weight, Local(c.volumes[e.v], s.threads[e.v], e)) + 1 <= Work(weight, s.threads[e.v]) + if e.Wake? then 6 else 0
  {
    assert Local(c.volumes[e.v], s.threads[e.v], e).devices == s.threads[e.v].devices;
  }

  lemma StepWork(c: Config, s: System, e: Event)
    requires Sound(c, s) && Enabled(c, s, e)
    ensures TotalWork(Weight(c), Apply(c, s, e).threads) + 1 <= TotalWork(Weight(c), s.threads) + if e.Wake? then 6 else 0
  {
    assert Unfold(0);
    var t, k := s.threads[e.v], Weight(c);
    var t' := Local(c.volumes[e.v], t, e);
    TotalWorkUpdate(k, s.threads, e.v, t');
    if e.Erase? {
      assert Accounted(c.devices, c.volumes[e.v], t);
      EraseWork(k, c.volumes[e.v], t, e.v);
      TotalWorkNotified(k, s.threads[e.v := t']);
    } else {
      OtherWork(k, c, s, e);
    }
  }

  ghost function Wakes(r: seq<Event>): nat {
    if r == [] then 0 else Wakes(Front(r)) + if Last(r).Wake? then 1 else 0
  }

  /** Neither passes a device over nor fails the pre-volume hook. */
  ghost predicate Willing(e: Event) { !e.Decline? && !e.FailHook? }

  /** Threads do not wait, wake and test for ever: the length of a run is
      bounded by the work to be done and the number of spurious wakeups. */
  lemma {:induction false} RunIsFinite(c: Config, r: seq<Event>)
    requires IsRun(c, r)
    ensures |r| + TotalWork(Weight(c), After(c, r).threads)
            <= TotalWork(Weight(c), Initial(c).threads) + 6 * Wakes(r)
  {
    if r != [] {
      RunIsFinite(c, Front(r));
      RunSound(c, Front(r));
      StepWork(c, After(c, Front(r)), Last(r));
    }
  }

  /** Any run can be brought to its end without a spurious wakeup and with a copy
      made on every device that is still to be attempted. */
  lemma {:induction false} RunCanEnd(c: Config, r: seq<Event>) returns (u: seq<Event>)
    requires IsRun(c, r)
    ensures r <= u && IsRun(c, u) && AllEnded(After(c, u)) && Wakes(u) == Wakes(r)
    ensures forall i :: |r| <= i < |u| ==> Willing(u[i])
    decreases TotalWork(Weight(c), After(c, r).threads)
  {
    RunSound(c, r);
    if AllEnded(After(c, r)) {
      u := r;
    } else {
      var e := NoDeadlock(c, After(c, r));
      StepWork(c, After(c, r), e);
      RunMore(c, r, e);
      u := RunCanEnd(c, r + [e]);
    }
  }

  lemma RunMore(c: Config, r: seq<Event>, e: Event)
    requires IsRun(c, r) && Enabled(c, After(c, r), e)
    ensures IsRun(c, r + [e]) && After(c, r + [e]) == Apply(c, After(c, r), e)
    ensures Wakes(r + [e]) == Wakes(r) + if e.Wake? then 1 else 0
  {
    assert Front(r + [e]) == r && Last(r + [e]) == e;
  }

  // ----- What each volume's thread did

  /** When a thread has ended, either it attempted every device exactly once, or
      its pre-volume hook failed and no backup was made; the hook ran at most
      once, and the post-volume hook ran (once) iff there is one and the
      pre-volume stage was passed, which is iff some backup was made. */
  lemma EveryDeviceAttemptedOnce(c: Config, r: seq<Event>, v: nat)
    requires IsRun(c, r) && v < |c.volumes|
    ensures var s := After(c, r);
            |s.threads| == |c.volumes|
            && var t := s.threads[v];
            Distinct(t.attempts)
            && t.preRuns == (if c.volumes[v].hasPreHook && (t.copies != [] || t.hook.HookFailed?) then 1 else 0)
            && (t.copies != [] ==> t.hook.Ran?)
            && (t.at.Ended? && !t.hook.HookFailed? ==> forall d :: d in t.attempts <==> d in c.devices)
            && (t.at.Ended? && t.hook.HookFailed? ==> c.volumes[v].hasPreHook && t.copies == [] && t.preRuns == 1 && t.postRuns == 0)
            && t.postRuns == (if t.at.Ended? && c.volumes[v].hasPostHook && t.copies != [] then 1 else 0)
  {
    assert Unfold(0);
    RunSound(c, r);
    assert Accounted(c.devices, c.volumes[v], After(c, r).threads[v]);
  }

  // ----- What can happen

  lemma HolderCounted(c: Config, s: System, w: nat)
    requires Sound(c, s) && w < |s.threads| && s.threads[w].HoldsAny()
    ensures s.threads[w].at.device in c.devices
    ensures !Usable(s.deviceUnused, s.threads[w].at.device) && !Usable(s.groupUnused, Group(c, w))
  {
    DevicesCounted(c, s);
    GroupsCounted(c, s);
    assert DevicesHeld(s)[w] == Some(s.threads[w].at.device);
    assert GroupsHeld(c, s)[w] == Some(Group(c, w));
  }

  lemma HoldersApart(c: Config, s: System, v: nat, w: nat)
    requires Sound(c, s) && v < w < |s.threads| && s.threads[v].HoldsAny() && s.threads[w].HoldsAny()
    ensures s.threads[v].at.device != s.threads[w].at.device && Group(c, v) != Group(c, w)
  {
    DevicesCounted(c, s);
    GroupsCounted(c, s);
    assert DevicesHeld(s)[v] != DevicesHeld(s)[w] && GroupsHeld(c, s)[v] != GroupsHeld(c, s)[w];
  }

  ghost predicate NobodyHas(c: Config, s: System, v: nat, d: string)
    requires v < |s.threads| == |c.volumes|
  {
    forall w :: 0 <= w < |s.threads| && s.threads[w].HoldsAny() ==>
                  s.threads[w].at.device != d && Group(c, w) != Group(c, v)
  }

  lemma UsableIff(c: Config, s: System, v: nat, d: string)
    requires Sound(c, s) && v < |s.threads| && d in c.devices
    ensures Usable(s.deviceUnused, d) && Usable(s.groupUnused, Group(c, v)) <==> NobodyHas(c, s, v, d)
  {
    if !Usable(s.deviceUnused, d) {
      var w := DeviceHolder(c, s, d);
    } else if !Usable(s.groupUnused, Group(c, v)) {
      var w := GroupHolder(c, s, v);
    } else {
      forall w | 0 <= w < |s.threads| && s.threads[w].HoldsAny()
        ensures s.threads[w].at.device != d && Group(c, w) != Group(c, v)
      {
        HolderCounted(c, s, w);
      }
    }
  }

  /** A thread with the lock can take a device just if it has still to deal with
      it and no thread has that device or the thread's group. */
  lemma TakeableIff(c: Config, r: seq<Event>, v: nat, d: string)
    requires IsRun(c, r) && v < |c.volumes|
    ensures var s := After(c, r);
            |s.threads| == |c.volumes|
            && (Enabled(c, s, Take(v, d)) <==>
                  s.threads[v].at.Testing? && d in s.threads[v].devices && !s.threads[v].hook.HookFailed?
                  && NobodyHas(c, s, v, d))
  {
    RunSound(c, r);
    var s := After(c, r);
    assert |s.threads| == |c.volumes|;
    ThreadAccounted(c, s, v);
    if d in s.threads[v].devices { UsableIff(c, s, v, d); }
  }

  /** A thread can take the lock just if no thread has it and it is not asleep. */
  lemma LockableIff(c: Config, r: seq<Event>, v: nat)
    requires IsRun(c, r) && v < |c.volumes|
    ensures var s := After(c, r);
            |s.threads| == |c.volumes|
            && (Enabled(c, s, Acquire(v)) <==>
                  (s.threads[v].at.Unborn? || s.threads[v].at.Woken? || s.threads[v].at.Copying?)
                  && forall w :: 0 <= w < |s.threads| ==> !s.threads[w].HasLock())
  {
    RunSound(c, r);
    assert Unfold(0);
  }

  /** The run goes on with a step of thread `v`, which leaves the others as they
      are, and the lock free or with `v`. */
  ghost predicate GoesOn(c: Config, r: seq<Event>, u: seq<Event>, v: nat, copying: bool) {
    IsRun(c, r) && IsRun(c, u) && r <= u
    && |After(c, r).threads| == |After(c, u).threads| == |c.volumes|
    && After(c, u).lock == (if copying then None else Some(v))
    && forall w :: 0 <= w < |c.volumes| && w != v ==> After(c, u).threads[w] == After(c, r).threads[w]
  }

  /** Once it has chosen a device a thread can always make its backup there, by
      one step, whatever the others are doing; in a dry run too, and then it
      keeps the lock. */
  lemma CanCopy(c: Config, r: seq<Event>, v: nat, act: bool)
    requires IsRun(c, r) && v < |After(c, r).threads| == |c.volumes| && After(c, r).threads[v].at.Chosen?
    ensures GoesOn(c, r, r + [Copy(v, act)], v, act)
    ensures var t, t' := After(c, r).threads[v], After(c, r + [Copy(v, act)]).threads[v];
            t'.copies == t.copies + [t.at.device] && t'.hook.Ran?
            && t'.at == if act then Copying(t.at.device) else Returned(t.at.device)
  {
    ChosenHasLock(c, r, v);
    RunMore(c, r, Copy(v, act));
  }

  lemma ChosenHasLock(c: Config, r: seq<Event>, v: nat)
    requires IsRun(c, r) && v < |After(c, r).threads| && After(c, r).threads[v].at.Chosen?
    ensures After(c, r).lock == Some(v) && !After(c, r).threads[v].hook.HookFailed?
  {
    RunSound(c, r);
    ThreadAccounted(c, After(c, r), v);
    assert Unfold(0);
  }

  /** Or it can leave the device out; and its pre-volume hook can fail just if
      there is one that has not been run. */
  lemma CanDecline(c: Config, r: seq<Event>, v: nat)
    requires IsRun(c, r) && v < |After(c, r).threads| == |c.volumes| && After(c, r).threads[v].at.Chosen?
    ensures GoesOn(c, r, r + [Decline(v)], v, false)
    ensures var t := After(c, r).threads[v];
            After(c, r + [Decline(v)]).threads[v] == t.(at := Returned(t.at.device))
    ensures IsRun(c, r + [FailHook(v)]) <==> c.volumes[v].hasPreHook && After(c, r).threads[v].hook.NotRun?
  {
    ChosenHasLock(c, r, v);
    RunMore(c, r, Decline(v));
    assert Front(r + [FailHook(v)]) == r && Last(r + [FailHook(v)]) == FailHook(v);
  }

  // ----- Backups side by side

  /** A thread that waits for the lock can get as far as making a backup on a
      device, if the lock is free and no thread has the device or its group. */
  lemma StartCopying(c: Config, r: seq<Event>, v: nat, d: string) returns (u: seq<Event>)
    requires IsRun(c, r) && v < |c.volumes| == |After(c, r).threads|
    requires After(c, r).lock == None && After(c, r).threads[v].at.Unborn?
    requires d in After(c, r).threads[v].devices && !After(c, r).threads[v].hook.HookFailed?
    requires NobodyHas(c, After(c, r), v, d)
    ensures GoesOn(c, r, u, v, true) && After(c, u).threads[v].at == Copying(d)
  {
    var p := r + [Acquire(v)];
    RunMore(c, r, Acquire(v));
    TakeableIff(c, p, v, d);
    RunMore(c, p, Take(v, d));
    u := p + [Take(v, d)] + [Copy(v, true)];
    CanCopy(c, p + [Take(v, d)], v, true);
  }

  /** Different volumes in different groups, on different devices. */
  ghost predicate Apart(c: Config, vs: seq<nat>, ds: seq<string>) {
    |vs| == |ds| && (forall i :: 0 <= i < |vs| ==> vs[i] < |c.volumes| && ds[i] in c.devices)
    && forall i, j :: 0 <= i < j < |vs| ==> Group(c, vs[i]) != Group(c, vs[j]) && ds[i] != ds[j]
  }

  ghost predicate AllCopying(c: Config, s: System, vs: seq<nat>, ds: seq<string>) {
    |vs| == |ds| && forall i :: 0 <= i < |vs| ==> vs[i] < |s.threads| && s.threads[vs[i]].at == Copying(ds[i])
  }

  ghost predicate NoneElse(c: Config, s: System, vs: seq<nat>) {
    s.lock == None && |s.threads| == |c.volumes|
    && forall w :: 0 <= w < |s.threads| && w !in vs ==> s.threads[w] == Initial(c).threads[w]
  }

  lemma {:induction false} RunToCopying(c: Config, vs: seq<nat>, ds: seq<string>) returns (r: seq<Event>)
    requires Apart(c, vs, ds)
    ensures IsRun(c, r) && AllCopying(c, After(c, r), vs, ds) && NoneElse(c, After(c, r), vs)
  {
    if vs == [] {
      r := [];
    } else {
      var ws, es, v, d := vs[..|vs| - 1], ds[..|ds| - 1], vs[|vs| - 1], ds[|ds| - 1];
      var p := RunToCopying(c, ws, es);
      var s := After(c, p);
      assert v !in ws;
      forall w | 0 <= w < |s.threads| && s.threads[w].HoldsAny() ensures s.threads[w].at.device != d && Group(c, w) != Group(c, v) {
        assert w in ws;
        var i :| 0 <= i < |ws| && ws[i] == w;
        assert vs[i] == w && ds[i] == es[i];
      }
      r := StartCopying(c, p, v, d);
      forall i | 0 <= i < |vs| ensures After(c, r).threads[vs[i]].at == Copying(ds[i]) {
        if i < |ws| { assert ws[i] == vs[i] && es[i] == ds[i]; }
      }
    }
  }

  /** After the run the thread of each `vs[i]` is running rsync to `ds[i]`. */
  ghost predicate Together(c: Config, r: seq<Event>, vs: seq<nat>, ds: seq<string>) {
    IsRun(c, r) && AllCopying(c, After(c, r), vs, ds)
  }

  lemma CopyingApart(c: Config, s: System, vs: seq<nat>, ds: seq<string>)
    requires Sound(c, s) && AllCopying(c, s, vs, ds)
    requires forall i, j :: 0 <= i < j < |vs| ==> vs[i] != vs[j]
    ensures Apart(c, vs, ds)
  {
    forall i | 0 <= i < |vs| ensures ds[i] in c.devices {
      HolderCounted(c, s, vs[i]);
    }
    forall i, j | 0 <= i < j < |vs| ensures Group(c, vs[i]) != Group(c, vs[j]) && ds[i] != ds[j] {
      if vs[i] < vs[j] { HoldersApart(c, s, vs[i], vs[j]); } else { HoldersApart(c, s, vs[j], vs[i]); }
    }
  }

  /** Any number of backups can be running rsync at once, and those that can are
      exactly the ones on different devices whose volumes are in different
      groups. */
  lemma CopyTogetherIff(c: Config, vs: seq<nat>, ds: seq<string>)
    requires |vs| == |ds| && forall i, j :: 0 <= i < j < |vs| ==> vs[i] != vs[j]
    ensures (exists r :: Together(c, r, vs, ds)) <==> Apart(c, vs, ds)
  {
    if Apart(c, vs, ds) {
      var r := RunToCopying(c, vs, ds);
      assert Together(c, r, vs, ds);
    }
    if r :| Together(c, r, vs, ds) {
      RunSound(c, r);
      CopyingApart(c, After(c, r), vs, ds);
    }
  }

  // ----- Backups everywhere

  /** Every step of `v` was willing: each device it attempted has a backup, but
      for one that it has just chosen. */
  lemma {:induction false} WillingCopies(c: Config, r: seq<Event>, v: nat)
    requires IsRun(c, r) && v < |c.volumes| && forall i :: 0 <= i < |r| && r[i].v == v ==> Willing(r[i])
    ensures |After(c, r).threads| == |c.volumes|
    ensures var t := After(c, r).threads[v];
            !t.hook.HookFailed? && forall d :: d in t.attempts ==> d in t.copies || t.at == Chosen(d)
  {
    if r != [] {
      WillingCopies(c, Front(r), v);
      RunSound(c, Front(r));
      var s, e := After(c, Front(r)), Last(r);
      ThreadAccounted(c, s, v);
      assert |s.threads| == |c.volumes|;
      assert e.v == v ==> Willing(e);
      assert After(c, r).threads[v] == if e.v == v then Local(c.volumes[v], s.threads[v], e)
                                       else if e.Erase? then Notified(s.threads[v]) else s.threads[v];
    }
  }

  /** A volume whose thread passes no device over and whose pre-volume hook does
      not fail is backed up to every device … */
  lemma WillingBacksUpEverywhere(c: Config, r: seq<Event>, v: nat)
    requires IsRun(c, r) && v < |c.volumes| && forall i :: 0 <= i < |r| && r[i].v == v ==> Willing(r[i])
    ensures |After(c, r).threads| == |c.volumes|
    ensures After(c, r).threads[v].at.Ended? ==> forall d :: d in After(c, r).threads[v].copies <==> d in c.devices
  {
    RunSound(c, r);
    WillingCopies(c, r, v);
    ThreadAccounted(c, After(c, r), v);
  }

  /** … and a run in which all are exists. */
  lemma EverythingBackedUp(c: Config) returns (u: seq<Event>)
    ensures IsRun(c, u) && AllEnded(After(c, u)) && |After(c, u).threads| == |c.volumes|
    ensures forall v, d :: 0 <= v < |c.volumes| ==> (d in After(c, u).threads[v].copies <==> d in c.devices)
  {
    u := RunCanEnd(c, []);
    forall v | 0 <= v < |c.volumes|
      ensures |After(c, u).threads| == |c.volumes| && forall d :: d in After(c, u).threads[v].copies <==> d in c.devices
    {
      WillingBacksUpEverywhere(c, u, v);
    }
    RunSound(c, u);
  }
}
