/** What the last step about a backup tells of its row, its directory and its
    marker; and when a directory without a marker is a complete backup. */
module BackupHistory {
  import opened Common
  import opened Folding
  import opened Lifecycle

  lemma {:induction false} LeadsBack(v: World, r: seq<Event>, w: World) returns (u: World)
    requires r != [] && Leads(v, r, w)
    ensures Leads(v, Front(r), u) && Enabled(u, Last(r)) && w == Apply(u, Last(r))
    decreases |r|
  {
    if |r| == 1 {
      u := v;
    } else {
      u := LeadsBack(Apply(v, r[0]), r[1..], w);
      assert Front(r)[1..] == Front(r[1..]);
    }
  }

  /** The last step of a run that is about a backup, and the steps before it. */
  ghost function LastAbout(r: seq<Event>, id: string): Option<Event> {
    if r == [] then None else if Concerns(Last(r), id) then Some(Last(r)) else LastAbout(Front(r), id)
  }

  ghost function BeforeLast(r: seq<Event>, id: string): seq<Event> {
    if r == [] then [] else if Concerns(Last(r), id) then Front(r) else BeforeLast(Front(r), id)
  }

  /** The row is updated after the marker has been removed, without an error. */
  ghost predicate RecordedComplete(r: seq<Event>, id: string) {
    LastAbout(r, id) == Some(UpdateRow(id))
    && LastAbout(BeforeLast(r, id), id) == Some(RemoveMarker(id, true, true))
  }

  /** What that step says of the row, the directory and the marker. */
  ghost predicate Told(d: Disk, e: Event, id: string, recorded: bool) {
    match e
    case StartUp => true
    case Crash => true
    case InsertRow(_) => HasRow(d, id, Underway)
    case MakeMarker(_) => HasRow(d, id, Underway) && id in d.markers
    case MakeDirectory(_) => HasRow(d, id, Underway) && id in d.markers
    case StartCopy(_) => HasRow(d, id, Underway) && id in d.markers
    case EndCopy(_, _, _) => HasRow(d, id, Underway) && id in d.markers
    case RemoveMarker(_, removed, _) => HasRow(d, id, Underway) && (!removed ==> id in d.markers)
    case GiveUp(_) => HasRow(d, id, Underway)
    case UpdateRow(_) => HasRow(d, id, if recorded then Complete else Failed)
    case Mark(_) => HasRow(d, id, Pruning)
    case MakePruneMarker(_) => HasRow(d, id, Pruning) && id in d.markers
    case StartRemoval(_) => HasRow(d, id, Pruning) && id in d.markers
    case EndRemoval(_, gone, _) => HasRow(d, id, Pruning) && (if gone then id !in d.dirs else id in d.markers)
    case RemovePruneMarker(_, _) => HasRow(d, id, Pruning) && id !in d.dirs
    case UpdatePruned(_) => HasRow(d, id, Pruned)
    case Abandon(_) => HasRow(d, id, Pruning)
    case Forget(_) => id !in d.rows
  }

  ghost predicate HasRow(d: Disk, id: string, s: Status) { id in d.rows && d.rows[id] == s }

  ghost predicate Untouched(d: Disk, e: Disk, id: string) {
    (id in d.rows <==> id in e.rows) && (id in d.rows ==> d.rows[id] == e.rows[id])
    && (id in d.dirs <==> id in e.dirs) && (id in d.dirs ==> d.dirs[id] == e.dirs[id])
    && (id in d.markers <==> id in e.markers)
  }

  lemma StepUntouched(w: World, e: Event, id: string)
    requires Enabled(w, e) && !Concerns(e, id)
    ensures Untouched(w.disk, Apply(w, e).disk, id)
    ensures id in Apply(w, e).jobs ==> id in w.jobs && Apply(w, e).jobs[id] == w.jobs[id]
  {
  }

  lemma StepTold(w: World, e: Event, id: string)
    requires Sound(w) && Enabled(w, e) && Concerns(e, id)
    ensures Told(Apply(w, e).disk, e, id, At(w, id, Verified))
    ensures At(Apply(w, e), id, Verified) <==> e == RemoveMarker(id, true, true)
  {
    assert Unfold(0);
    if id in w.jobs { assert JobSound(w.disk, id, w.jobs[id]); }
  }

  lemma {:induction false} LastTold(d: Disk, r: seq<Event>, w: World, id: string)
    requires Safe(d) && Leads(Down(d), r, w)
    ensures LastAbout(r, id).None? ==> Untouched(d, w.disk, id) && id !in w.jobs
    ensures LastAbout(r, id).Some? ==> Concerns(LastAbout(r, id).value, id)
    ensures LastAbout(r, id).Some? ==> Told(w.disk, LastAbout(r, id).value, id, RecordedComplete(r, id))
    ensures At(w, id, Verified) ==> LastAbout(r, id) == Some(RemoveMarker(id, true, true))
    ensures LastAbout(r, id) == Some(RemoveMarker(id, true, true)) && id in w.jobs ==> w.jobs[id] == Verified
    decreases |r|
  {
    assert Unfold(0);
    if r != [] {
      var u := LeadsBack(Down(d), r, w);
      LastTold(d, Front(r), u, id);
      RunSound(Down(d), Front(r), u);
      if Concerns(Last(r), id) {
        StepTold(u, Last(r), id);
      } else {
        StepUntouched(u, Last(r), id);
      }
    }
  }

  /** An unmarked directory is full and has a row; and the row says COMPLETE
      exactly if the last two steps about the backup removed the marker without
      an error and updated the row, or if there was no step about it and the row
      said so before. */
  lemma UnmarkedCompleteIff(d: Disk, r: seq<Event>, w: World, id: string)
    requires Safe(d) && Leads(Down(d), r, w)
    requires id in w.disk.dirs && id !in w.disk.markers
    ensures w.disk.dirs[id] == Full && id in w.disk.rows && w.disk.rows[id] != Pruned
    ensures w.disk.rows[id] == Complete
            <==> RecordedComplete(r, id) || (LastAbout(r, id).None? && HasRow(d, id, Complete))
  {
    assert Unfold(0);
    RunSound(Down(d), r, w);
    LastTold(d, r, w, id);
  }

  /** And otherwise: it was begun again, or given up, or its marker was removed
      and the row not yet updated (UNDERWAY); the row was updated after an error
      (FAILED); or it was marked for removal and nothing done about it (PRUNING). */
  lemma UnmarkedRow(d: Disk, r: seq<Event>, w: World, id: string)
    requires Safe(d) && Leads(Down(d), r, w)
    requires id in w.disk.dirs && id !in w.disk.markers && LastAbout(r, id).Some?
    ensures id in w.disk.rows
    ensures w.disk.rows[id] ==
            match LastAbout(r, id).value
            case InsertRow(_) => Underway
            case GiveUp(_) => Underway
            case RemoveMarker(_, _, _) => Underway
            case UpdateRow(_) => if RecordedComplete(r, id) then Complete else Failed
            case _ => Pruning
    ensures var e := LastAbout(r, id).value;
            e.InsertRow? || e.GiveUp? || (e.RemoveMarker? && e.removed) || e.UpdateRow? || e.Mark? || e.Abandon?
  {
    assert Unfold(0);
    RunSound(Down(d), r, w);
    LastTold(d, r, w, id);
  }

  /** A run to a full directory whose marker is about to be removed. */
  lemma RunToCopied(id: string) returns (r: seq<Event>, w: World)
    ensures Leads(EMPTY, r, w) && w.up && At(w, id, Copied) && Crash !in r
    ensures HasRow(w.disk, id, Underway) && id in w.disk.dirs && w.disk.dirs[id] == Full
  {
    var a := Apply(Apply(EMPTY, StartUp), InsertRow(id));
    var b := Apply(Apply(a, MakeMarker(id)), MakeDirectory(id));
    w := Apply(Apply(b, StartCopy(id)), EndCopy(id, true, true));
    var p := LeadsTwo(EMPTY, StartUp, InsertRow(id));
    var q := LeadsTwo(a, MakeMarker(id), MakeDirectory(id));
    var s := LeadsTwo(b, StartCopy(id), EndCopy(id, true, true));
    LeadsOn(EMPTY, p, a, q, b);
    LeadsOn(EMPTY, p + q, b, s, w);
    r := p + q + s;
  }

  ghost predicate LeavesUnmarked(r: seq<Event>, id: string, s: Status) {
    exists w :: Leads(EMPTY, r, w) && id in w.disk.dirs && w.disk.dirs[id] == Full && id !in w.disk.markers && HasRow(w.disk, id, s)
  }

  /** All three happen: UNDERWAY after a crash … */
  lemma UnmarkedUnderway(id: string) returns (r: seq<Event>)
    ensures LeavesUnmarked(r, id, Underway)
  {
    var p, w := RunToCopied(id);
    var q := LeadsTwo(w, RemoveMarker(id, true, true), Crash);
    LeadsOn(EMPTY, p, w, q, Apply(Apply(w, q[0]), Crash));
    r := p + q;
  }

  /** … FAILED without one, if an error follows the removal of the marker … */
  lemma UnmarkedFailed(id: string) returns (r: seq<Event>)
    ensures LeavesUnmarked(r, id, Failed) && Crash !in r
  {
    var p, w := RunToCopied(id);
    var q := LeadsTwo(w, RemoveMarker(id, true, false), UpdateRow(id));
    LeadsOn(EMPTY, p, w, q, Apply(Apply(w, q[0]), UpdateRow(id)));
    r := p + q;
  }

  lemma RunToComplete(id: string) returns (r: seq<Event>, w: World)
    ensures Leads(EMPTY, r, w) && w.up && id !in w.jobs && Crash !in r
    ensures HasRow(w.disk, id, Complete) && id in w.disk.dirs && w.disk.dirs[id] == Full && id !in w.disk.markers
  {
    var p, u := RunToCopied(id);
    var q := LeadsTwo(u, RemoveMarker(id, true, true), UpdateRow(id));
    w := Apply(Apply(u, q[0]), UpdateRow(id));
    LeadsOn(EMPTY, p, u, q, w);
    r := p + q;
  }

  /** … and PRUNING while the device is away. */
  lemma UnmarkedPruning(id: string) returns (r: seq<Event>)
    ensures LeavesUnmarked(r, id, Pruning) && Crash !in r
  {
    var p, w := RunToComplete(id);
    var q := LeadsTwo(w, Mark({id}), Abandon(id));
    LeadsOn(EMPTY, p, w, q, Apply(Apply(w, q[0]), Abandon(id)));
    r := p + q;
  }
}
