/** Concurrent backups: one thread per volume, a global lock, a condition
    variable, and a limit of one job per device and per concurrency group.

    A thread's code is cut into atomic steps wherever it takes or releases the
    global lock, and further where it takes or releases a limit. Any thread
    that can take a step may be the next to do so. */
module BackupProtocol {
  import opened Common
  import opened Folding

  datatype VolumeDef = VolumeDef(group: string, hasPreHook: bool, hasPostHook: bool)

  datatype Config = Config(volumes: seq<VolumeDef>, devices: set<string>)

  datatype HookState = NotRun | Ran | HookFailed

  /** Where a thread is. `Testing` to `Releasing` are inside one hold of the
      lock, except that `Copying` is rsync, with the lock released. */
  datatype Place =
    | Unborn
    | Testing
    | Chosen(device: string)
    | Copying(device: string)
    | Returned(device: string)
    | Releasing(device: string)
    | Waiting
    | Woken
    | Ended

  datatype Thread = Thread(
    at: Place,
    devices: set<string>,      // still to be dealt with
    hook: HookState,
    attempts: seq<string>,     // devices given to maybeBackupVolumeToDevice
    copies: seq<string>,       // devices on which a backup was made
    preRuns: nat,
    postRuns: nat)
  {
    predicate HasLock() { at.Testing? || at.Chosen? || at.Returned? || at.Releasing? }
    predicate HoldsAny() { at.Chosen? || at.Copying? || at.Returned? || at.Releasing? }
    predicate Looping() { devices != {} && !hook.HookFailed? }
  }

  datatype System = System(
    lock: Option<nat>,
    threads: seq<Thread>,
    deviceUnused: map<string, int>,
    groupUnused: map<string, int>)

  datatype Event =
    | Acquire(v: nat)
    | Take(v: nat, d: string)
    | Decline(v: nat)
    | FailHook(v: nat)
    | Copy(v: nat, act: bool)
    | Erase(v: nat)
    | Release(v: nat)
    | Sleep(v: nat)
    | Wake(v: nat)             // a wakeup nobody asked for
    | Exit(v: nat)

  ghost function Group(c: Config, v: nat): string requires v < |c.volumes| { c.volumes[v].group }

  ghost function Initial(c: Config): System {
    System(None,
           seq(|c.volumes|, v requires 0 <= v < |c.volumes| => Thread(Unborn, c.devices, NotRun, [], [], 0, 0)),
           map d | d in c.devices :: 1,
           map v: VolumeDef | v in c.volumes :: v.group := 1)
  }

  /** `ConcurrencyLimit::usable`. */
  ghost predicate Usable(limits: map<string, int>, k: string) { k in limits && limits[k] > 0 }

  ghost predicate CanTake(c: Config, s: System, v: nat, d: string)
    requires v < |s.threads| == |c.volumes|
  {
    d in s.threads[v].devices && Usable(s.groupUnused, Group(c, v)) && Usable(s.deviceUnused, d)
  }

  ghost predicate Enabled(c: Config, s: System, e: Event) {
    e.v < |s.threads| == |c.volumes|
    && var t := s.threads[e.v];
    match e
    case Acquire(v) => s.lock == None && (t.at.Unborn? || t.at.Woken? || t.at.Copying?)
    case Take(v, d) => t.at.Testing? && t.Looping() && CanTake(c, s, v, d)
    case Sleep(v) => t.at.Testing? && t.Looping() && forall d :: !CanTake(c, s, v, d)
    case Exit(v) => t.at.Testing? && !t.Looping()
    case Decline(v) => t.at.Chosen?
    case FailHook(v) => t.at.Chosen? && t.hook.NotRun? && c.volumes[v].hasPreHook
    case Copy(v, _) => t.at.Chosen?
    case Erase(v) => t.at.Returned?
    case Release(v) => t.at.Releasing?
    case Wake(v) => t.at.Waiting?
  }

  ghost function Notified(t: Thread): Thread {
    if t.at.Waiting? then t.(at := Woken) else t
  }

  ghost function NotifyAll(ts: seq<Thread>): seq<Thread> {
    seq(|ts|, i requires 0 <= i < |ts| => Notified(ts[i]))
  }

  ghost function Adjust(limits: map<string, int>, k: string, change: int): map<string, int> {
    if k in limits then limits[k := limits[k] + change] else limits
  }

  /** Running the pre-volume hook if that has not been done. */
  ghost function AfterHook(def: VolumeDef, t: Thread): Thread {
    if t.hook.NotRun? then t.(hook := Ran, preRuns := t.preRuns + if def.hasPreHook then 1 else 0) else t
  }

  /** What a step does to the thread that takes it … */
  ghost function Local(def: VolumeDef, t: Thread, e: Event): Thread {
    match e
    case Acquire(_) => t.(at := if t.at.Copying? then Returned(t.at.device) else Testing)
    case Take(_, d) => t.(at := Chosen(d), attempts := t.attempts + [d])
    case Decline(_) => if t.HoldsAny() then t.(at := Returned(t.at.device)) else t
    case FailHook(_) =>
      if t.HoldsAny() then t.(at := Returned(t.at.device), hook := HookFailed, preRuns := t.preRuns + 1) else t
    case Copy(_, act) =>
      if t.HoldsAny() then
        AfterHook(def, t).(copies := t.copies + [t.at.device],
                           at := if act then Copying(t.at.device) else Returned(t.at.device))
      else t
    case Erase(_) =>
      if t.HoldsAny() then t.(at := Releasing(t.at.device), devices := t.devices - {t.at.device}) else t
    case Release(_) => t.(at := Testing)
    case Sleep(_) => t.(at := Waiting)
    case Wake(_) => t.(at := Woken)
    case Exit(_) => t.(at := Ended, postRuns := t.postRuns + if t.hook.Ran? && def.hasPostHook then 1 else 0)
  }

  /** … and to the lock and a limit. */
  ghost function LockAfter(lock: Option<nat>, e: Event): Option<nat> {
    match e
    case Acquire(v) => Some(v)
    case Copy(_, act) => if act then None else lock
    case Sleep(_) => None
    case Exit(_) => None
    case _ => lock
  }

  ghost function LimitsAfter(limits: map<string, int>, k: string, e: Event): map<string, int> {
    if e.Take? then Adjust(limits, k, -1) else if e.Release? then Adjust(limits, k, 1) else limits
  }

  ghost function Apply(c: Config, s: System, e: Event): System
    requires Enabled(c, s, e)
  {
    var t := s.threads[e.v];
    var ts := s.threads[e.v := Local(c.volumes[e.v], t, e)];
    System(LockAfter(s.lock, e),
           if e.Erase? then NotifyAll(ts) else ts,
           LimitsAfter(s.deviceUnused, if e.Take? then e.d else if t.HoldsAny() then t.at.device else "", e),
           LimitsAfter(s.groupUnused, Group(c, e.v), e))
  }

  // ----- Runs

  ghost predicate IsRun(c: Config, r: seq<Event>)
    decreases |r|, 0
  {
    r != [] ==> IsRun(c, Front(r)) && Enabled(c, After(c, Front(r)), Last(r))
  }

  ghost function After(c: Config, r: seq<Event>): System
    requires IsRun(c, r)
    decreases |r|, 1
  {
    if r == [] then Initial(c) else Apply(c, After(c, Front(r)), Last(r))
  }

  // ----- The lock and the limits

  ghost predicate LockHeld(s: System) {
    (s.lock.Some? ==> s.lock.value < |s.threads|)
    && forall v :: 0 <= v < |s.threads| ==> (s.threads[v].HasLock() <==> s.lock == Some(v))
  }

  /** Each counter is 1 less its holders, who are at most one. `held[v]` is the
      limit thread `v` has taken, if any. */
  ghost predicate Counted(limits: map<string, int>, held: seq<Option<string>>) {
    (forall v :: 0 <= v < |held| && held[v].Some? ==> held[v].value in limits && limits[held[v].value] == 0)
    && (forall v, w :: 0 <= v < w < |held| && held[v].Some? ==> held[v] != held[w])
    && (forall k :: k in limits ==> limits[k] == 1 || (limits[k] == 0 && Some(k) in held))
  }

  ghost function DevicesHeld(s: System): seq<Option<string>> {
    seq(|s.threads|, v requires 0 <= v < |s.threads| =>
          if s.threads[v].HoldsAny() then Some(s.threads[v].at.device) else None)
  }

  ghost function GroupsHeld(c: Config, s: System): seq<Option<string>>
    requires |s.threads| == |c.volumes|
  {
    seq(|s.threads|, v requires 0 <= v < |s.threads| =>
          if s.threads[v].HoldsAny() then Some(Group(c, v)) else None)
  }

  /** No wakeup is lost: a thread in `cond.wait` could not go on now, and while
      limits are about to be released nobody is in `cond.wait`. */
  ghost predicate WaitersBlocked(c: Config, s: System) {
    forall v :: 0 <= v < |s.threads| == |c.volumes| && s.threads[v].at.Waiting? ==>
                  s.threads[v].Looping()
                  && (forall d :: !CanTake(c, s, v, d))
                  && forall w :: 0 <= w < |s.threads| ==> !s.threads[w].at.Releasing?
  }

  /** All that holds in every state; folded. */
  ghost predicate Sound(c: Config, s: System) {
    |s.threads| == |c.volumes|
    && forall k {:trigger Unfold(k)} :: Unfold(k) ==>
         LockHeld(s)
         && s.deviceUnused.Keys == c.devices && Counted(s.deviceUnused, DevicesHeld(s))
         && (forall v :: 0 <= v < |c.volumes| ==> Group(c, v) in s.groupUnused)
         && Counted(s.groupUnused, GroupsHeld(c, s))
         && WaitersBlocked(c, s)
         && forall v :: 0 <= v < |s.threads| ==> Accounted(c.devices, c.volumes[v], s.threads[v])
  }

  // ----- What a thread has done

  ghost function Current(t: Thread): set<string> {
    if t.at.Chosen? || t.at.Copying? || t.at.Returned? then {t.at.device} else {}
  }

  ghost predicate Distinct(xs: seq<string>) {
    forall i, j :: 0 <= i < j < |xs| ==> xs[i] != xs[j]
  }

  ghost predicate Accounted(all: set<string>, def: VolumeDef, t: Thread) {
    Distinct(t.attempts)
    && t.devices <= all
    && Current(t) <= t.devices
    && (forall d :: d in t.attempts <==> d in all && (d !in t.devices || d in Current(t)))
    && (forall d :: d in t.copies ==> d in t.attempts)
    && HooksAccounted(def, t)
  }

  ghost predicate HooksAccounted(def: VolumeDef, t: Thread) {
    (t.hook.Ran? <==> t.copies != [])
    && t.preRuns == (if def.hasPreHook && !t.hook.NotRun? then 1 else 0)
    && t.postRuns == (if t.at.Ended? && t.hook.Ran? && def.hasPostHook then 1 else 0)
    && (t.at.Ended? ==> !t.Looping())
    && (t.at.Chosen? ==> !t.hook.HookFailed?)
    && (t.hook.HookFailed? ==> def.hasPreHook)
  }
}
