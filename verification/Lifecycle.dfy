/** The life of a backup in three stores that are updated separately: its
    database row, its directory and its `.incomplete` marker. The process that
    updates them may die between any two steps and be started again, any number
    of times. */
module Lifecycle {
  import opened Folding


  datatype Status = Unknown | Underway | Complete | Failed | Pruning | Pruned

  /** What a backup directory contains; `Full` is what rsync leaves when it
      reports success. */
  datatype Contents = Partial | Full

  datatype Disk = Disk(
    rows: map<string, Status>,
    dirs: map<string, Contents>,
    markers: set<string>)

  /** How far the process has got with one backup. */
  datatype Job =
    // performBackup
    | Recorded
    | Marked
    | DirectoryMade
    | Copying
    | Copied
    | Verified
    | Spoiled
    // pruneBackups
    | Condemned
    | PruneMarked
    | Removing
    | Removed
    | Cleared
  {
    predicate Prunes() { Condemned? || PruneMarked? || Removing? || Removed? || Cleared? }
  }

  /** `jobs` is lost in a crash. */
  datatype World = World(disk: Disk, up: bool, jobs: map<string, Job>)

  datatype Event =
    | StartUp
    | Crash
    // performBackup, BeforeBackup::go and rsyncBackup
    | InsertRow(id: string)
    | MakeMarker(id: string)
    | MakeDirectory(id: string)
    | StartCopy(id: string)
    | EndCopy(id: string, full: bool, ok: bool)
    | RemoveMarker(id: string, removed: bool, ok: bool)
    | GiveUp(id: string)
    | UpdateRow(id: string)
    // markObsoleteBackups, findRemovableBackups and RemovableBackup
    | Mark(ids: set<string>)
    | MakePruneMarker(id: string)
    | StartRemoval(id: string)
    | EndRemoval(id: string, gone: bool, ok: bool)
    | RemovePruneMarker(id: string, removed: bool)
    | UpdatePruned(id: string)
    | Abandon(id: string)
    // prunePruneLogs
    | Forget(ids: set<string>)

  ghost predicate At(w: World, id: string, j: Job) { id in w.jobs && w.jobs[id] == j }

  ghost predicate Enabled(w: World, e: Event) {
    match e
    case StartUp => !w.up
    case Crash => w.up
    case InsertRow(id) => w.up && id !in w.jobs
    case MakeMarker(id) => At(w, id, Recorded)
    case MakeDirectory(id) => At(w, id, Marked)
    case StartCopy(id) => At(w, id, DirectoryMade)
    case EndCopy(id, full, ok) => At(w, id, Copying) && (ok ==> full)
    case RemoveMarker(id, removed, ok) => At(w, id, Copied) && (ok ==> removed)
    case GiveUp(id) => At(w, id, Recorded) || At(w, id, Marked) || At(w, id, DirectoryMade)
    case UpdateRow(id) => At(w, id, Verified) || At(w, id, Spoiled)
    case Mark(ids) =>
      w.up && forall id :: id in ids ==> id !in w.jobs && id in w.disk.rows && w.disk.rows[id] != Pruned
    case MakePruneMarker(id) => At(w, id, Condemned)
    case StartRemoval(id) => At(w, id, PruneMarked)
    case EndRemoval(id, gone, ok) => At(w, id, Removing) && (ok ==> gone)
    case RemovePruneMarker(id, _) => At(w, id, Removed)
    case UpdatePruned(id) => At(w, id, Cleared)
    case Abandon(id) => id in w.jobs && w.jobs[id].Prunes()
    case Forget(ids) => w.up && forall id :: id in ids ==> id !in w.jobs && id in w.disk.rows && w.disk.rows[id] == Pruned
  }

  /** What a step does to the disk … */
  ghost function DiskAfter(w: World, e: Event): Disk {
    var d := w.disk;
    match e
    case StartUp => d
    case Crash => d
    case InsertRow(id) => d.(rows := d.rows[id := Underway])
    case MakeMarker(id) => d.(markers := d.markers + {id})
    case MakeDirectory(id) => if id in d.dirs then d else d.(dirs := d.dirs[id := Partial])
    case StartCopy(id) => d.(dirs := d.dirs[id := Partial])
    case EndCopy(id, full, _) => if full then d.(dirs := d.dirs[id := Full]) else d
    case RemoveMarker(id, removed, _) => if removed then d.(markers := d.markers - {id}) else d
    case GiveUp(_) => d
    case UpdateRow(id) =>
      if id in d.rows then d.(rows := d.rows[id := if At(w, id, Verified) then Complete else Failed]) else d
    case Mark(ids) => d.(rows := map id | id in d.rows :: if id in ids then Pruning else d.rows[id])
    case MakePruneMarker(id) => d.(markers := d.markers + {id})
    case StartRemoval(id) => if id in d.dirs then d.(dirs := d.dirs[id := Partial]) else d
    case EndRemoval(id, gone, _) => if gone then d.(dirs := d.dirs - {id}) else d
    case RemovePruneMarker(id, removed) => if removed then d.(markers := d.markers - {id}) else d
    case UpdatePruned(id) => if id in d.rows then d.(rows := d.rows[id := Pruned]) else d
    case Abandon(_) => d
    case Forget(ids) => d.(rows := d.rows - ids)
  }

  /** … and to the process. */
  ghost function JobsAfter(w: World, e: Event): map<string, Job> {
    var js := w.jobs;
    match e
    case StartUp => map[]
    case Crash => map[]
    case InsertRow(id) => js[id := Recorded]
    case MakeMarker(id) => js[id := Marked]
    case MakeDirectory(id) => js[id := DirectoryMade]
    case StartCopy(id) => js[id := Copying]
    case EndCopy(id, _, ok) => js[id := if ok then Copied else Spoiled]
    case RemoveMarker(id, _, ok) => js[id := if ok then Verified else Spoiled]
    case GiveUp(id) => js[id := Spoiled]
    case UpdateRow(id) => js - {id}
    case Mark(ids) => js + map id | id in ids :: Condemned
    case MakePruneMarker(id) => js[id := PruneMarked]
    case StartRemoval(id) => js[id := Removing]
    case EndRemoval(id, _, ok) => if ok then js[id := Removed] else js - {id}
    case RemovePruneMarker(id, _) => js[id := Cleared]
    case UpdatePruned(id) => js - {id}
    case Abandon(id) => js - {id}
    case Forget(_) => js
  }

  ghost function Apply(w: World, e: Event): World {
    World(DiskAfter(w, e), if e.StartUp? then true else if e.Crash? then false else w.up, JobsAfter(w, e))
  }

  // ----- Runs

  const EMPTY: World := World(Disk(map[], map[], {}), false, map[])

  /** `w` is reached from `v` by the steps of `r`. */
  ghost predicate Leads(v: World, r: seq<Event>, w: World)
    decreases |r|
  {
    if r == [] then v == w else Enabled(v, r[0]) && Leads(Apply(v, r[0]), r[1..], w)
  }

  // ----- The invariant

  /** What the operator, and the next process, can rely on. */
  ghost predicate Safe(d: Disk) {
    (forall id :: id in d.rows && d.rows[id] == Complete ==> id in d.dirs && d.dirs[id] == Full && id !in d.markers)
    && (forall id :: id in d.dirs && d.dirs[id] == Partial ==> id in d.markers)
    && (forall id :: id in d.rows && d.rows[id] == Pruned ==> id !in d.dirs)
    && (forall id :: id in d.dirs ==> id in d.rows)
  }

  /** What the process can rely on while it works on a backup. */
  ghost predicate JobSound(d: Disk, id: string, j: Job) {
    id in d.rows && d.rows[id] == (if j.Prunes() then Pruning else Underway)
    && (j.Marked? || j.DirectoryMade? || j.Copying? || j.Copied? || j.PruneMarked? || j.Removing? ==> id in d.markers)
    && (j.DirectoryMade? || j.Copying? || j.Copied? || j.Verified? ==> id in d.dirs)
    && (j.Copied? || j.Verified? ==> d.dirs[id] == Full)
    && (j.Verified? ==> id !in d.markers)
    && (j.Removed? || j.Cleared? ==> id !in d.dirs)
  }

  /** Both, in every state; folded. */
  ghost predicate Sound(w: World) {
    forall k {:trigger Unfold(k)} :: Unfold(k) ==>
      Safe(w.disk) && forall id :: id in w.jobs ==> w.up && JobSound(w.disk, id, w.jobs[id])
  }

  ghost predicate SafeAt(d: Disk, id: string) {
    (id in d.rows && d.rows[id] == Complete ==> id in d.dirs && d.dirs[id] == Full && id !in d.markers)
    && (id in d.dirs && d.dirs[id] == Partial ==> id in d.markers)
    && (id in d.rows && d.rows[id] == Pruned ==> id !in d.dirs)
    && (id in d.dirs ==> id in d.rows)
  }

  lemma StepSafeAt(w: World, e: Event, id: string)
    requires Sound(w) && Enabled(w, e)
    ensures SafeAt(Apply(w, e).disk, id)
  {
    assert Unfold(0);
    assert SafeAt(w.disk, id);
  }

  /** The backup that a step is about. */
  ghost predicate Concerns(e: Event, id: string) {
    match e
    case StartUp => false
    case Crash => false
    case Mark(ids) => id in ids
    case Forget(ids) => id in ids
    case _ => e.id == id
  }

  lemma StepOwnJob(w: World, e: Event, id: string)
    requires Sound(w) && Enabled(w, e) && Concerns(e, id) && id in Apply(w, e).jobs
    ensures Apply(w, e).up && JobSound(Apply(w, e).disk, id, Apply(w, e).jobs[id])
  {
    assert Unfold(0);
  }

  lemma StepOtherJob(w: World, e: Event, id: string)
    requires Sound(w) && Enabled(w, e) && !Concerns(e, id) && id in Apply(w, e).jobs
    ensures Apply(w, e).up && JobSound(Apply(w, e).disk, id, Apply(w, e).jobs[id])
  {
    assert Unfold(0);
  }

  lemma StepSound(w: World, e: Event)
    requires Sound(w) && Enabled(w, e)
    ensures Sound(Apply(w, e))
  {
    var u := Apply(w, e);
    forall id
      ensures SafeAt(u.disk, id)
      ensures id in u.jobs ==> u.up && JobSound(u.disk, id, u.jobs[id])
    {
      StepSafeAt(w, e, id);
      if id in u.jobs {
        if Concerns(e, id) { StepOwnJob(w, e, id); } else { StepOtherJob(w, e, id); }
      }
    }
  }

  lemma {:induction false} RunSound(v: World, r: seq<Event>, w: World)
    requires Sound(v) && Leads(v, r, w)
    ensures Sound(w)
    decreases |r|
  {
    if r != [] {
      var u := Apply(v, r[0]);
      StepSound(v, r[0]);
      RunSound(u, r[1..], w);
    }
  }

  ghost function Down(d: Disk): World { World(d, false, map[]) }

  /** However often the program is run and dies, from an empty disk or any safe
      one: a row COMPLETE means a full and unmarked directory, a directory that
      is not full is marked, PRUNED means no directory, and every directory has
      a row. */
  lemma CrashConsistency(d: Disk, r: seq<Event>, w: World)
    requires Safe(d)
    requires Leads(Down(d), r, w)
    ensures Safe(w.disk)
  {
    assert Unfold(0);
    RunSound(Down(d), r, w);
  }

  // ----- Where a final status comes from

  /** A row turns COMPLETE only when rsync has reported success … */
  lemma {:induction false} CompleteMeansCopied(v: World, r: seq<Event>, w: World, id: string)
    requires Leads(v, r, w)
    requires id in v.disk.rows ==> v.disk.rows[id] != Complete
    requires !At(v, id, Copied) && !At(v, id, Verified)
    requires id in w.disk.rows && w.disk.rows[id] == Complete
    ensures EndCopy(id, true, true) in r
    decreases |r|
  {
    if r[0] != EndCopy(id, true, true) {
      CompleteMeansCopied(Apply(v, r[0]), r[1..], w, id);
    }
  }

  /** … and PRUNED only when rm has. */
  lemma {:induction false} PrunedMeansRemoved(v: World, r: seq<Event>, w: World, id: string)
    requires Leads(v, r, w)
    requires id in v.disk.rows ==> v.disk.rows[id] != Pruned
    requires !At(v, id, Removed) && !At(v, id, Cleared)
    requires id in w.disk.rows && w.disk.rows[id] == Pruned
    ensures EndRemoval(id, true, true) in r
    decreases |r|
  {
    if r[0] != EndRemoval(id, true, true) {
      PrunedMeansRemoved(Apply(v, r[0]), r[1..], w, id);
    }
  }

  lemma {:induction false} LeadsOn(u: World, a: seq<Event>, v: World, b: seq<Event>, w: World)
    requires Leads(u, a, v) && Leads(v, b, w)
    ensures Leads(u, a + b, w)
    decreases |a|
  {
    if a == [] {
      assert a + b == b;
    } else {
      assert (a + b)[1..] == a[1..] + b;
      LeadsOn(Apply(u, a[0]), a[1..], v, b, w);
    }
  }

  // ----- Recovery

  /** Nothing but complete backups is left, and nothing but complete backups is
      claimed. */
  ghost predicate Clean(d: Disk) {
    (forall id :: id in d.rows ==> d.rows[id] == Complete || d.rows[id] == Pruned)
    && forall id :: id in d.dirs ==> id in d.rows && d.rows[id] == Complete && d.dirs[id] == Full && id !in d.markers
  }

  ghost function WithoutBackup(w: World, id: string): World {
    World(Disk(w.disk.rows[id := Pruned], w.disk.dirs - {id}, w.disk.markers - {id}), w.up, w.jobs - {id})
  }

  /** From the mark to the start of rm … */
  lemma PruneBegins(w: World, id: string) returns (r: seq<Event>, u: World)
    requires At(w, id, Condemned)
    ensures Leads(w, r, u) && At(u, id, Removing) && u.up == w.up && u.disk.rows == w.disk.rows
    ensures u.disk.dirs - {id} == w.disk.dirs - {id} && u.disk.markers - {id} == w.disk.markers - {id}
    ensures u.jobs - {id} == w.jobs - {id}
  {
    u := Apply(Apply(w, MakePruneMarker(id)), StartRemoval(id));
    r := LeadsTwo(w, MakePruneMarker(id), StartRemoval(id));
  }

  /** … and from there to the removal of the marker. */
  lemma PruneRemoves(w: World, id: string) returns (r: seq<Event>, u: World)
    requires At(w, id, Removing)
    ensures Leads(w, r, u) && At(u, id, Cleared) && u.up == w.up && u.disk.rows == w.disk.rows
    ensures u.disk.dirs == w.disk.dirs - {id} && u.disk.markers == w.disk.markers - {id}
    ensures u.jobs - {id} == w.jobs - {id}
  {
    u := Apply(Apply(w, EndRemoval(id, true, true)), RemovePruneMarker(id, true));
    r := LeadsTwo(w, EndRemoval(id, true, true), RemovePruneMarker(id, true));
  }

  lemma PruneOne(w: World, id: string) returns (r: seq<Event>)
    requires At(w, id, Condemned) && id in w.disk.rows
    ensures Leads(w, r, WithoutBackup(w, id))
  {
    var p, u := PruneBegins(w, id);
    var q, v := PruneRemoves(u, id);
    LeadsOn(w, p, u, q, v);
    LeadsOne(v, UpdatePruned(id));
    assert Apply(v, UpdatePruned(id)) == WithoutBackup(w, id);
    LeadsOn(w, p + q, v, [UpdatePruned(id)], WithoutBackup(w, id));
    r := p + q + [UpdatePruned(id)];
  }

  lemma LeadsOne(w: World, e: Event)
    requires Enabled(w, e)
    ensures Leads(w, [e], Apply(w, e))
  {
    assert [e][1..] == [];
  }

  lemma LeadsTwo(w: World, e: Event, f: Event) returns (r: seq<Event>)
    requires Enabled(w, e) && Enabled(Apply(w, e), f)
    ensures r == [e, f] && Leads(w, r, Apply(Apply(w, e), f))
  {
    LeadsOne(w, e);
    LeadsOne(Apply(w, e), f);
    LeadsOn(w, [e], Apply(w, e), [f], Apply(Apply(w, e), f));
    r := [e, f];
    assert [e] + [f] == r;
  }

  lemma {:induction false} PruneAll(w: World, ids: set<string>) returns (r: seq<Event>, z: World)
    requires forall id :: id in ids ==> At(w, id, Condemned) && id in w.disk.rows
    ensures Leads(w, r, z) && z.up == w.up && z.jobs == w.jobs - ids
    ensures z.disk.dirs == w.disk.dirs - ids && z.disk.markers == w.disk.markers - ids
    ensures z.disk.rows.Keys == w.disk.rows.Keys
    ensures forall id :: id in w.disk.rows ==> z.disk.rows[id] == if id in ids then Pruned else w.disk.rows[id]
    decreases ids
  {
    if ids == {} {
      r, z := [], w;
      assert w.jobs - ids == w.jobs && w.disk.dirs - ids == w.disk.dirs && w.disk.markers - ids == w.disk.markers;
    } else {
      var id :| id in ids;
      var u := WithoutBackup(w, id);
      var p := PruneOne(w, id);
      var q;
      q, z := PruneAll(u, ids - {id});
      LeadsOn(w, p, u, q, z);
      r := p + q;
      assert z.jobs == w.jobs - ids;
      assert z.disk.dirs == w.disk.dirs - ids;
      assert z.disk.markers == w.disk.markers - ids;
    }
  }

  /** From whatever state a crash left behind some run leads to complete backups
      only, and to all of them. */
  lemma RecoveryPossible(d: Disk) returns (r: seq<Event>, w: World)
    requires Safe(d)
    ensures Leads(Down(d), r, w) && w.up && w.jobs == map[]
    ensures Clean(w.disk)
    ensures forall id :: id in d.rows && d.rows[id] == Complete ==>
                           id in w.disk.rows && w.disk.rows[id] == Complete && id in w.disk.dirs && w.disk.dirs[id] == Full
  {
    var v := Down(d);
    var u := Apply(v, StartUp);
    var ids := set id | id in d.rows && d.rows[id] != Complete && d.rows[id] != Pruned;
    var m := Apply(u, Mark(ids));
    assert m.jobs == map id | id in ids :: Condemned;
    var p := LeadsTwo(v, StartUp, Mark(ids));
    var q;
    q, w := PruneAll(m, ids);
    LeadsOn(v, p, m, q, w);
    r := p + q;
  }

  /** Nothing goes wrong and no new backup is begun. */
  ghost predicate Quiet(e: Event) {
    match e
    case Mark(_) => true
    case MakePruneMarker(_) => true
    case StartRemoval(_) => true
    case EndRemoval(_, _, ok) => ok
    case RemovePruneMarker(_, _) => true
    case UpdatePruned(_) => true
    case Forget(_) => true
    case _ => false
  }

  /** What is not complete or pruned is being pruned. */
  ghost predicate AllInHand(w: World) {
    forall id :: id in w.disk.rows && w.disk.rows[id] != Complete && w.disk.rows[id] != Pruned ==> id in w.jobs
  }

  lemma StepInHand(w: World, e: Event)
    requires AllInHand(w) && Enabled(w, e) && Quiet(e)
    ensures AllInHand(Apply(w, e))
  {
  }

  lemma {:induction false} QuietInHand(v: World, r: seq<Event>, w: World)
    requires Leads(v, r, w) && AllInHand(v) && forall e :: e in r ==> Quiet(e)
    ensures AllInHand(w)
    decreases |r|
  {
    if r != [] {
      StepInHand(v, r[0]);
      QuietInHand(Apply(v, r[0]), r[1..], w);
    }
  }

  /** And every such run does, whatever else it prunes and in whatever order: one
      that marks all backups that are not complete, in which no step goes wrong,
      and which is done with all its jobs. */
  lemma QuietPruneCleans(d: Disk, ids: set<string>, r: seq<Event>, w: World)
    requires Safe(d) && Leads(Down(d), [StartUp, Mark(ids)] + r, w)
    requires forall id :: id in d.rows && d.rows[id] != Complete && d.rows[id] != Pruned ==> id in ids
    requires (forall e :: e in r ==> Quiet(e)) && w.jobs == map[]
    ensures Clean(w.disk)
  {
    assert Unfold(0);
    var all := [StartUp, Mark(ids)] + r;
    var u := Apply(Down(d), StartUp);
    assert all[1..] == [Mark(ids)] + r && all[1..][1..] == r;
    assert Leads(u, all[1..], w);
    var v := Apply(u, Mark(ids));
    assert Leads(v, r, w);
    QuietInHand(v, r, w);
    RunSound(Down(d), all, w);
  }
}
