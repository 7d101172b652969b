/** What a backup and a removal can come to: from whatever state the disk is in,
    whatever else the process is doing, and after a crash at any moment. */
module JobEndings {
  import opened Lifecycle

  /** How `performBackup` can end. */
  datatype BackupEnding =
    | Completes
    | NoDirectory                  // the marker or the directory cannot be made
    | CopyFails(full: bool)        // rsync fails, perhaps after all was copied
    | MarkerRemains                // the marker cannot be removed …
    | MarkerGone                   // … or is, and an error follows

  /** And what it leaves. Nothing is changed of any other backup. */
  ghost function AfterBackup(d: Disk, id: string, how: BackupEnding): Disk {
    match how
    case Completes => Disk(d.rows[id := Complete], d.dirs[id := Full], d.markers - {id})
    case NoDirectory => Disk(d.rows[id := Failed], d.dirs, d.markers)
    case CopyFails(full) => Disk(d.rows[id := Failed], d.dirs[id := if full then Full else Partial], d.markers + {id})
    case MarkerRemains => Disk(d.rows[id := Failed], d.dirs[id := Full], d.markers + {id})
    case MarkerGone => Disk(d.rows[id := Failed], d.dirs[id := Full], d.markers - {id})
  }

  /** How a removal can end. */
  datatype RemovalEnding =
    | Removes
    | MarkerLeft                   // the marker cannot be removed
    | RmFails(gone: bool)
    | DeviceAway

  ghost function AfterRemoval(d: Disk, id: string, how: RemovalEnding): Disk {
    match how
    case Removes => Disk(d.rows[id := Pruned], d.dirs - {id}, d.markers - {id})
    case MarkerLeft => Disk(d.rows[id := Pruned], d.dirs - {id}, d.markers + {id})
    case RmFails(gone) =>
      Disk(d.rows[id := Pruning],
           if gone then d.dirs - {id} else if id in d.dirs then d.dirs[id := Partial] else d.dirs,
           d.markers + {id})
    case DeviceAway => Disk(d.rows[id := Pruning], d.dirs, d.markers)
  }

  // ----- Backups

  ghost predicate Idle(w: World, id: string) { w.up && id !in w.jobs }

  lemma GoOn(u: World, p: seq<Event>, v: World, e: Event) returns (r: seq<Event>, w: World)
    requires Leads(u, p, v) && Enabled(v, e)
    ensures w == Apply(v, e) && Leads(u, r, w)
  {
    w := Apply(v, e);
    LeadsOne(v, e);
    LeadsOn(u, p, v, [e], w);
    r := p + [e];
  }

  lemma CopyBegins(w: World, id: string) returns (r: seq<Event>, u: World)
    requires Idle(w, id)
    ensures Leads(w, r, u)
    ensures u == World(Disk(w.disk.rows[id := Underway], w.disk.dirs[id := Partial], w.disk.markers + {id}),
                       true, w.jobs[id := Copying])
  {
    r := LeadsTwo(w, InsertRow(id), MakeMarker(id));
    u := Apply(Apply(w, InsertRow(id)), MakeMarker(id));
    r, u := GoOn(w, r, u, MakeDirectory(id));
    r, u := GoOn(w, r, u, StartCopy(id));
  }

  /** To the end of rsync. */
  lemma CopyEnds(w: World, id: string, full: bool, ok: bool) returns (r: seq<Event>, u: World)
    requires Idle(w, id) && (ok ==> full)
    ensures Leads(w, r, u)
    ensures u == World(Disk(w.disk.rows[id := Underway], w.disk.dirs[id := if full then Full else Partial], w.disk.markers + {id}),
                       true, w.jobs[id := if ok then Copied else Spoiled])
  {
    r, u := CopyBegins(w, id);
    r, u := GoOn(w, r, u, EndCopy(id, full, ok));
    assert u.jobs == w.jobs[id := if ok then Copied else Spoiled];
    assert u.disk.dirs == w.disk.dirs[id := if full then Full else Partial];
  }

  /** To the removal of the marker. */
  lemma MarkerTried(w: World, id: string, removed: bool, ok: bool) returns (r: seq<Event>, u: World)
    requires Idle(w, id) && (ok ==> removed)
    ensures Leads(w, r, u)
    ensures u == World(Disk(w.disk.rows[id := Underway], w.disk.dirs[id := Full],
                            if removed then w.disk.markers - {id} else w.disk.markers + {id}),
                       true, w.jobs[id := if ok then Verified else Spoiled])
  {
    r, u := CopyEnds(w, id, true, true);
    r, u := GoOn(w, r, u, RemoveMarker(id, removed, ok));
  }

  lemma RowUpdated(w: World, p: seq<Event>, u: World, id: string) returns (r: seq<Event>)
    requires Leads(w, p, u) && u.up && id !in w.jobs && id in u.disk.rows
    requires u.jobs == w.jobs[id := Verified] || u.jobs == w.jobs[id := Spoiled]
    ensures Leads(w, r, World(u.disk.(rows := u.disk.rows[id := if At(u, id, Verified) then Complete else Failed]), true, w.jobs))
  {
    var v;
    r, v := GoOn(w, p, u, UpdateRow(id));
    assert v.jobs == w.jobs;
  }

  lemma RowAfter(w: World, p: seq<Event>, u: World, id: string, how: BackupEnding) returns (r: seq<Event>)
    requires Leads(w, p, u) && u.up && id !in w.jobs && u.disk.rows == w.disk.rows[id := Underway]
    requires u.jobs == w.jobs[id := if how.Completes? then Verified else Spoiled]
    requires u.disk.dirs == AfterBackup(w.disk, id, how).dirs && u.disk.markers == AfterBackup(w.disk, id, how).markers
    ensures Leads(w, r, World(AfterBackup(w.disk, id, how), true, w.jobs))
  {
    r := RowUpdated(w, p, u, id);
    assert u.disk.rows[id := if how.Completes? then Complete else Failed] == AfterBackup(w.disk, id, how).rows;
  }

  /** A backup can be made at any time, with any name that no job has, whether
      or not there was a backup of that name before, while any other jobs are at
      any point; it can end in each of these ways, and changes nothing else. */
  lemma BackupCanEnd(w: World, id: string, how: BackupEnding) returns (r: seq<Event>)
    requires Idle(w, id)
    ensures Leads(w, r, World(AfterBackup(w.disk, id, how), true, w.jobs))
  {
    var u: World;
    match how {
      case NoDirectory =>
        r := LeadsTwo(w, InsertRow(id), GiveUp(id));
        u := Apply(Apply(w, InsertRow(id)), GiveUp(id));
      case CopyFails(full) =>
        r, u := CopyEnds(w, id, full, false);
      case Completes =>
        r, u := MarkerTried(w, id, true, true);
      case MarkerRemains =>
        r, u := MarkerTried(w, id, false, false);
      case MarkerGone =>
        r, u := MarkerTried(w, id, true, false);
    }
    r := RowAfter(w, r, u, id, how);
  }

  // ----- Removals

  ghost predicate Removable(w: World, id: string) {
    Idle(w, id) && id in w.disk.rows && w.disk.rows[id] != Pruned
  }

  lemma Condemn(w: World, id: string) returns (r: seq<Event>, u: World)
    requires Removable(w, id)
    ensures Leads(w, r, u)
    ensures u == World(Disk(w.disk.rows[id := Pruning], w.disk.dirs, w.disk.markers), true, w.jobs[id := Condemned])
  {
    r := [Mark({id})];
    LeadsOne(w, Mark({id}));
    u := Apply(w, Mark({id}));
    assert u.disk.rows == w.disk.rows[id := Pruning];
    assert u.jobs == w.jobs[id := Condemned];
  }

  lemma RmStarts(w: World, id: string) returns (r: seq<Event>, u: World)
    requires Removable(w, id)
    ensures Leads(w, r, u)
    ensures u == World(AfterRemoval(w.disk, id, RmFails(false)), true, w.jobs[id := Removing])
  {
    r, u := Condemn(w, id);
    r, u := GoOn(w, r, u, MakePruneMarker(id));
    r, u := GoOn(w, r, u, StartRemoval(id));
  }

  lemma RmEnds(w: World, id: string, gone: bool, ok: bool) returns (r: seq<Event>, u: World)
    requires Removable(w, id) && (ok ==> gone)
    ensures Leads(w, r, u)
    ensures u == World(AfterRemoval(w.disk, id, RmFails(gone)), true, if ok then w.jobs[id := Removed] else w.jobs)
  {
    r, u := RmStarts(w, id);
    r, u := GoOn(w, r, u, EndRemoval(id, gone, ok));
    assert u.disk.dirs == AfterRemoval(w.disk, id, RmFails(gone)).dirs;
    assert u.jobs == if ok then w.jobs[id := Removed] else w.jobs;
  }

  lemma Cleaned(w: World, id: string, removed: bool) returns (r: seq<Event>, u: World)
    requires Removable(w, id)
    ensures Leads(w, r, u)
    ensures u == World(AfterRemoval(w.disk, id, if removed then Removes else MarkerLeft), true, w.jobs)
  {
    r, u := RmEnds(w, id, true, true);
    r, u := GoOn(w, r, u, RemovePruneMarker(id, removed));
    r, u := GoOn(w, r, u, UpdatePruned(id));
    assert u.jobs == w.jobs;
    assert u.disk == AfterRemoval(w.disk, id, if removed then Removes else MarkerLeft);
  }

  /** So can any backup that has not been be removed, whatever its row says. */
  lemma RemovalCanEnd(w: World, id: string, how: RemovalEnding) returns (r: seq<Event>)
    requires Removable(w, id)
    ensures Leads(w, r, World(AfterRemoval(w.disk, id, how), true, w.jobs))
  {
    var u: World;
    match how {
      case DeviceAway =>
        r, u := Condemn(w, id);
        r, u := GoOn(w, r, u, Abandon(id));
      case RmFails(gone) =>
        r, u := RmEnds(w, id, gone, false);
      case Removes =>
        r, u := Cleaned(w, id, true);
      case MarkerLeft =>
        r, u := Cleaned(w, id, false);
    }
    assert u == World(AfterRemoval(w.disk, id, how), true, w.jobs);
  }

  /** And then it can be forgotten. */
  lemma RemovalForgotten(w: World, id: string) returns (r: seq<Event>)
    requires Removable(w, id)
    ensures Leads(w, r, World(Disk(w.disk.rows - {id}, w.disk.dirs - {id}, w.disk.markers - {id}), true, w.jobs))
  {
    r := RemovalCanEnd(w, id, Removes);
    var u := World(AfterRemoval(w.disk, id, Removes), true, w.jobs);
    r, u := GoOn(w, r, u, Forget({id}));
    assert u.disk.rows == w.disk.rows - {id};
  }

  // ----- After a crash

  /** The process can die at any moment, and be started again. */
  lemma Restart(w: World) returns (r: seq<Event>)
    ensures Leads(w, r, World(w.disk, true, map[]))
  {
    if w.up {
      r := LeadsTwo(w, Crash, StartUp);
    } else {
      LeadsOne(w, StartUp);
      r := [StartUp];
    }
  }

  /** From every state, whatever a crash interrupts, some run makes a backup of
      any name, full, unmarked and COMPLETE, and changes nothing else. */
  lemma BackupPossible(w: World, id: string) returns (r: seq<Event>)
    ensures Leads(w, r, World(AfterBackup(w.disk, id, Completes), true, map[]))
  {
    var u := World(w.disk, true, map[]);
    var p := Restart(w);
    var q := BackupCanEnd(u, id, Completes);
    r := p + q;
    LeadsOn(w, p, u, q, World(AfterBackup(w.disk, id, Completes), true, map[]));
  }
}
