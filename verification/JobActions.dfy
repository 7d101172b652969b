/** The two uses that backups and prunes make of the scheduler: rsync after the
    directory has been made, and the clean-up after each removal. */
module JobActions {
  import opened Common
  import opened Folding
  import opened ActionRuns
  import opened ActionOutcomes

  lemma FinishedRunExists(sys: System)
    requires sys.Closed() && sys.Acyclic()
    ensures exists t :: FinishedRun(sys, t)
  {
    var t := RunCompletes(sys, []);
    assert FinishedRun(sys, t);
  }

  // ----- rsyncBackup

  /** `before-backup/…`, and `backup/…` after it if it succeeds. */
  ghost predicate IsBackupJob(sys: System, before: string, rsync: string, made: bool, copied: bool) {
    before != rsync && sys.actions.Keys == {before, rsync}
    && sys.actions[before] == Definition([], [], 0, made)
    && sys.actions[rsync] == Definition([], [Predecessor(before, true, false)], 0, copied)
  }

  /** The job always ends; rsync is run, once, just if the directory could be
      made, and the job succeeds just if both do. */
  lemma BackupJobRuns(sys: System, before: string, rsync: string, made: bool, copied: bool)
    requires IsBackupJob(sys, before, rsync, made, copied)
    ensures exists t :: FinishedRun(sys, t)
    ensures forall t :: FinishedRun(sys, t) ==> BackupJobDone(sys, t, before, rsync, made, copied)
  {
    BackupJobAcyclic(sys, before, rsync, made, copied);
    FinishedRunExists(sys);
    forall t | FinishedRun(sys, t) ensures BackupJobDone(sys, t, before, rsync, made, copied) {
      BackupJobRun(sys, t, before, rsync, made, copied);
    }
  }

  ghost predicate BackupJobDone(sys: System, t: seq<Event>, before: string, rsync: string, made: bool, copied: bool) {
    After(sys, t).done == map[before := made, rsync := made && copied]
    && Starts(t, before) == 1 && Starts(t, rsync) == (if made then 1 else 0)
  }

  lemma BackupJobRun(sys: System, t: seq<Event>, before: string, rsync: string, made: bool, copied: bool)
    requires IsBackupJob(sys, before, rsync, made, copied) && FinishedRun(sys, t)
    ensures BackupJobDone(sys, t, before, rsync, made, copied)
  {
    var done := After(sys, t).done;
    FinishedRunExplained(sys, t);
    Explained(sys, done, before);
    Explained(sys, done, rsync);
    BackupJobNeeds(sys, before, rsync, made, copied, done);
    RunsExactlyTheEarned(sys, t, before);
    RunsExactlyTheEarned(sys, t, rsync);
    assert done.Keys == {before, rsync};
  }

  lemma BackupJobAcyclic(sys: System, before: string, rsync: string, made: bool, copied: bool)
    requires IsBackupJob(sys, before, rsync, made, copied)
    ensures sys.Closed() && sys.Acyclic()
  {
    assert sys.RankedBy(map[before := 0, rsync := 1]);
  }

  lemma BackupJobNeeds(sys: System, before: string, rsync: string, made: bool, copied: bool, done: map<string, bool>)
    requires IsBackupJob(sys, before, rsync, made, copied) && before in done
    ensures RequirementsMet(sys, done, before)
    ensures RequirementsMet(sys, done, rsync) <==> done[before]
  {
    var p := Predecessor(before, true, false);
    assert sys.actions[rsync].predecessors[0] == p && sys.Hits(p, before);
    assert sys.Requires(rsync, before);
  }

  // ----- pruneBackups

  /** The two actions of a removable backup, the device it is on, and whether rm
      succeeds. */
  datatype Removal = Removal(remove: string, removed: string, device: string, ok: bool)

  /** All the actions have different names. */
  ghost predicate NamesDiffer(rs: set<Removal>) {
    (forall r, s :: r in rs && s in rs ==> r.remove != s.removed)
    && forall r, s :: r in rs && s in rs && (r.remove == s.remove || r.removed == s.removed) ==> r == s
  }

  /** What a backup is known by. */
  datatype Identity = Identity(host: string, volume: string, device: string, id: string) {
    /** No slash is valid in the name of a host, volume or device. */
    ghost predicate Valid() { '/' !in host && '/' !in volume && '/' !in device }

    function Path(): string { host + ("/" + (volume + ("/" + (device + ("/" + id))))) }
  }

  function Named(b: Identity, ok: bool): Removal {
    Removal("remove/" + b.Path(), "removed/" + b.Path(), b.device, ok)
  }

  ghost function FirstSlash(s: string): nat {
    if s == [] || s[0] == '/' then 0 else 1 + FirstSlash(s[1..])
  }

  lemma {:induction false} FirstSlashIs(a: string, x: string)
    requires '/' !in a
    ensures FirstSlash(a + ("/" + x)) == |a|
  {
    if a != [] {
      assert (a + ("/" + x))[1..] == a[1..] + ("/" + x);
      FirstSlashIs(a[1..], x);
    }
  }

  lemma SplitAtSlash(a: string, x: string, b: string, y: string)
    requires '/' !in a && '/' !in b && a + ("/" + x) == b + ("/" + y)
    ensures a == b && x == y
  {
    var s, t := a + ("/" + x), b + ("/" + y);
    FirstSlashIs(a, x);
    FirstSlashIs(b, y);
    assert s[..|a|] == a && t[..|b|] == b && s[|a| + 1..] == x && t[|b| + 1..] == y;
  }

  /** The path tells the backup. */
  lemma PathInjective(b: Identity, c: Identity)
    requires b.Valid() && c.Valid() && b.Path() == c.Path()
    ensures b == c
  {
    SplitAtSlash(b.host, b.volume + ("/" + (b.device + ("/" + b.id))), c.host, c.volume + ("/" + (c.device + ("/" + c.id))));
    SplitAtSlash(b.volume, b.device + ("/" + b.id), c.volume, c.device + ("/" + c.id));
    SplitAtSlash(b.device, b.id, c.device, c.id);
  }

  lemma TitlesDiffer(p: string, q: string)
    ensures "remove/" + p != "removed/" + q
    ensures "remove/" + p == "remove/" + q || "removed/" + p == "removed/" + q ==> p == q
  {
    assert ("remove/" + p)[6] == '/' && ("removed/" + q)[6] == 'd';
    assert ("remove/" + p)[7..] == p && ("remove/" + q)[7..] == q;
    assert ("removed/" + p)[8..] == p && ("removed/" + q)[8..] == q;
  }

  /** So the actions made for different backups have different names. */
  lemma BackupsName(bs: set<Identity>, ok: Identity -> bool)
    requires forall b :: b in bs ==> b.Valid()
    ensures NamesDiffer(set b | b in bs :: Named(b, ok(b)))
  {
    forall b, c | b in bs && c in bs
      ensures Named(b, ok(b)).remove != Named(c, ok(c)).removed
      ensures Named(b, ok(b)).remove == Named(c, ok(c)).remove ==> b == c
      ensures Named(b, ok(b)).removed == Named(c, ok(c)).removed ==> b == c
    {
      TitlesDiffer(b.Path(), c.Path());
      if b.Path() == c.Path() { PathInjective(b, c); }
    }
  }

  /** For each removable backup `remove/…`, and `removed/…` after it whether or
      not it succeeds; both use the device. */
  ghost predicate IsPrune(sys: System, rs: set<Removal>) {
    NamesDiffer(rs)
    && (forall r :: r in rs ==> HasRemoval(sys, r))
    && forall n :: n in sys.actions ==> exists r :: r in rs && (n == r.remove || n == r.removed)
  }

  ghost predicate HasRemoval(sys: System, r: Removal) {
    r.remove in sys.actions && r.removed in sys.actions
    && sys.actions[r.remove] == Definition([r.device], [], 0, r.ok)
    && sys.actions[r.removed] == Definition([r.device], [Predecessor(r.remove, false, false)], 0, true)
  }

  lemma PruneDependencies(sys: System, rs: set<Removal>, n: string, m: string)
    requires IsPrune(sys, rs)
    ensures sys.DependsOn(n, m) <==> exists r :: r in rs && n == r.removed && m == r.remove
    ensures !sys.Requires(n, m)
  {
    if n in sys.actions {
      var r :| r in rs && (n == r.remove || n == r.removed);
      assert HasRemoval(sys, r);
      if n == r.removed && m == r.remove {
        assert sys.actions[n].predecessors[0] in sys.actions[n].predecessors;
      }
    }
  }

  lemma PruneAcyclic(sys: System, rs: set<Removal>)
    requires IsPrune(sys, rs)
    ensures sys.Closed() && sys.Acyclic()
  {
    var rank := map n | n in sys.actions :: if sys.actions[n].predecessors == [] then 0 else 1;
    forall n, m | n in sys.actions && m in sys.actions && sys.DependsOn(n, m) ensures rank[m] < rank[n] {
      PruneDependencies(sys, rs, n, m);
      var r :| r in rs && n == r.removed && m == r.remove;
      assert HasRemoval(sys, r);
    }
    assert sys.RankedBy(rank);
    forall n, p | n in sys.actions && p in sys.actions[n].predecessors && !p.glob ensures p.name in sys.actions {
      var r :| r in rs && (n == r.remove || n == r.removed);
      assert HasRemoval(sys, r);
    }
  }

  ghost predicate RemovedOnce(sys: System, t: seq<Event>, r: Removal) {
    var done, at := After(sys, t).done, DoneAt(t);
    Starts(t, r.remove) == 1 && Starts(t, r.removed) == 1
    && r.remove in at && r.removed in at && at[r.remove] < at[r.removed]
    && r.remove in done && r.removed in done && done[r.remove] == r.ok && done[r.removed]
  }

  /** Without a time limit a prune always ends, whatever rm does and in whatever
      order: each rm is run once, its clean-up once and after it, and the
      clean-up is run even if rm failed. */
  lemma PruneRuns(sys: System, rs: set<Removal>)
    requires IsPrune(sys, rs)
    ensures exists t :: FinishedRun(sys, t)
    ensures forall t, r :: FinishedRun(sys, t) && r in rs ==> RemovedOnce(sys, t, r)
  {
    PruneAcyclic(sys, rs);
    FinishedRunExists(sys);
    forall t, r | FinishedRun(sys, t) && r in rs ensures RemovedOnce(sys, t, r) {
      PruneRunsOne(sys, rs, t, r);
    }
  }

  lemma PruneRunsOne(sys: System, rs: set<Removal>, t: seq<Event>, r: Removal)
    requires IsPrune(sys, rs) && FinishedRun(sys, t) && r in rs
    ensures RemovedOnce(sys, t, r)
  {
    assert HasRemoval(sys, r);
    FinishedRunExplained(sys, t);
    RunInOrder(sys, t);
    RunConsistent(sys, t);
    forall n, m ensures !sys.Requires(n, m) { PruneDependencies(sys, rs, n, m); }
    PruneDependencies(sys, rs, r.removed, r.remove);
    RunsExactlyTheEarned(sys, t, r.remove);
    RunsExactlyTheEarned(sys, t, r.removed);
    Explained(sys, After(sys, t).done, r.remove);
    Explained(sys, After(sys, t).done, r.removed);
  }

  /** In every state of every prune, limited or not, at most one of these actions
      is running on a device. */
  lemma OneRemovalPerDevice(sys: System, rs: set<Removal>, t: seq<Event>, r: Removal, s: Removal, n: string, m: string)
    requires IsPrune(sys, rs) && IsRun(sys, t) && r in rs && s in rs && r.device == s.device
    requires n in {r.remove, r.removed} && m in {s.remove, s.removed}
    requires n in After(sys, t).running && m in After(sys, t).running
    ensures n == m && r == s
  {
    RunConsistent(sys, t);
    assert HasRemoval(sys, r) && HasRemoval(sys, s);
    assert r.device in sys.actions[n].resources && r.device in sys.actions[m].resources;
    assert Uses(sys, n, r.device) && Uses(sys, m, r.device);
  }

  /** So of the backups on one device, as named by their own host, volume, device
      and id, at most one is being removed or cleaned up after at any moment. */
  lemma OneBackupPerDevice(sys: System, bs: set<Identity>, ok: Identity -> bool, t: seq<Event>, b: Identity, c: Identity,
                           n: string, m: string)
    requires IsPrune(sys, set x | x in bs :: Named(x, ok(x))) && IsRun(sys, t)
    requires (forall x :: x in bs ==> x.Valid()) && b in bs && c in bs && b.device == c.device
    requires n in {"remove/" + b.Path(), "removed/" + b.Path()} && m in {"remove/" + c.Path(), "removed/" + c.Path()}
    requires n in After(sys, t).running && m in After(sys, t).running
    ensures n == m && b == c
  {
    var rs := set x | x in bs :: Named(x, ok(x));
    assert Named(b, ok(b)) in rs && Named(c, ok(c)) in rs;
    OneRemovalPerDevice(sys, rs, t, Named(b, ok(b)), Named(c, ok(c)), n, m);
    TitlesDiffer(b.Path(), c.Path());
    PathInjective(b, c);
  }

  ghost predicate BothRun(sys: System, t: seq<Event>, n: string, m: string) {
    IsRun(sys, t) && n in After(sys, t).running && m in After(sys, t).running
  }

  lemma RemovalReady(sys: System, rs: set<Removal>, t: seq<Event>, r: Removal)
    requires IsPrune(sys, rs) && IsRun(sys, t) && r in rs && r.remove in After(sys, t).pending
    requires r.device !in After(sys, t).resources
    ensures IsRun(sys, t + [Start(r.remove)])
    ensures After(sys, t + [Start(r.remove)]) == Apply(sys, After(sys, t), Start(r.remove))
  {
    assert HasRemoval(sys, r);
    assert Front(t + [Start(r.remove)]) == t && Last(t + [Start(r.remove)]) == Start(r.remove);
    forall m ensures !sys.Requires(r.remove, m) { PruneDependencies(sys, rs, r.remove, m); }
  }

  lemma RemovedTogether(sys: System, rs: set<Removal>, r: Removal, s: Removal) returns (t: seq<Event>)
    requires IsPrune(sys, rs) && r in rs && s in rs && r.device != s.device && r.remove != s.remove
    ensures BothRun(sys, t, r.remove, s.remove)
  {
    assert HasRemoval(sys, r) && HasRemoval(sys, s);
    RemovalReady(sys, rs, [], r);
    RemovalReady(sys, rs, [] + [Start(r.remove)], s);
    t := [] + [Start(r.remove)] + [Start(s.remove)];
  }

  /** And two backups can be being removed at the same time just if they are on
      different devices. */
  lemma RemovedTogetherIff(sys: System, bs: set<Identity>, ok: Identity -> bool, b: Identity, c: Identity)
    requires IsPrune(sys, set x | x in bs :: Named(x, ok(x)))
    requires (forall x :: x in bs ==> x.Valid()) && b in bs && c in bs && b != c
    ensures (exists t :: BothRun(sys, t, "remove/" + b.Path(), "remove/" + c.Path())) <==> b.device != c.device
  {
    var rs, n, m := set x | x in bs :: Named(x, ok(x)), "remove/" + b.Path(), "remove/" + c.Path();
    if t :| BothRun(sys, t, n, m) {
      if b.device == c.device { OneBackupPerDevice(sys, bs, ok, t, b, c, n, m); }
    }
    if b.device != c.device {
      var r, s := Named(b, ok(b)), Named(c, ok(c));
      assert r in rs && s in rs;
      TitlesDiffer(b.Path(), c.Path());
      if b.Path() == c.Path() { PathInjective(b, c); }
      var t := RemovedTogether(sys, rs, r, s);
    }
  }
}
