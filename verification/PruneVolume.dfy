/** From the pruning policy to the statistics: what finding and marking the
    obsolete backups of a volume does to the volume. */
module PruneVolume {
  import opened Lifecycle
  import A = PruneAge
  import D = Dates
  import V = Volumes
  import opened Strings

  /** Today, and the date at a time. */
  datatype Calendar = Calendar(today: D.CalendarDate, date: int -> D.CalendarDate) {
    /** The age in days of a backup made at a time. */
    function Age(time: int): int { D.Minus(today, date(time)) }

    /** Time and date go together. */
    ghost predicate Ordered() {
      forall t, u :: t <= u ==> date(t) == date(u) || D.Less(date(t), date(u))
    }
  }

  /** A backup as the policy sees it. */
  function ValueOf(b: V.Backup, cal: Calendar): A.Backup
    reads b`status
  {
    A.Backup(b.id, b.device, b.time, cal.Age(b.time), b.status)
  }

  ghost function Values(bs: seq<V.Backup>, cal: Calendar): seq<A.Backup>
    reads bs
  {
    seq(|bs|, i requires 0 <= i < |bs| reads bs => ValueOf(bs[i], cal))
  }

  lemma ValuesDiffer(v: V.Volume, cal: Calendar)
    requires v.Valid()
    ensures A.NoRepeats(Values(v.backups, cal))
    ensures forall i, j :: 0 <= i < j < |v.backups| ==> v.backups[i] != v.backups[j]
  {
    v.InOrder();
    forall i, j | 0 <= i < j < |v.backups|
      ensures v.backups[i] != v.backups[j] && Values(v.backups, cal)[i] != Values(v.backups, cal)[j]
    {
      LexIrreflexive(v.backups[i].device);
      assert V.Before(v.backups[i], v.backups[j]);
    }
  }

  // ----- Counting

  lemma {:induction false} SameCount(infos: seq<V.Info>, xs: seq<A.Backup>, device: string)
    requires |infos| == |xs|
    requires forall i :: 0 <= i < |xs| ==> infos[i].device == xs[i].device && (infos[i].complete <==> xs[i].status == Complete)
    ensures V.TotalOn(infos, device) == |A.CompleteOn(xs, device)|
  {
    if xs != [] { SameCount(infos[..|xs| - 1], xs[..|xs| - 1], device); }
  }

  lemma {:induction false} ElementsAtMost(xs: seq<A.Backup>)
    ensures |A.Elements(xs)| <= |xs|
  {
    if xs == [] {
      assert A.Elements(xs) == {};
    } else {
      var ys, y := xs[..|xs| - 1], xs[|xs| - 1];
      ElementsAtMost(ys);
      assert xs == ys + [y];
      assert A.Elements(xs) == A.Elements(ys) + {y};
    }
  }

  /** The backups after the obsolete ones have been marked. */
  ghost predicate Marked(c: A.Command, before: seq<A.Backup>, after: seq<A.Backup>) {
    |before| == |after|
    && forall i :: 0 <= i < |after| ==>
                     after[i] == if A.Obsolete(c, before, before[i]) then before[i].(status := Pruning) else before[i]
  }

  lemma CountKept(c: A.Command, before: seq<A.Backup>, after: seq<A.Backup>, device: string)
    requires A.NoRepeats(before) && Marked(c, before, after)
    ensures |A.CompleteOn(after, device)| >= A.Min(|A.CompleteOn(before, device)|, c.minBackups)
  {
    A.MinimumKept(c, before, device);
    var left, on := A.LeftOn(c, before, device), A.CompleteOn(after, device);
    A.CompleteOnMembers(after, device);
    forall b | b in left ensures b in A.Elements(on) {
      var i :| 0 <= i < |before| && before[i] == b;
      assert after[i] == b;
    }
    A.SubsetSize(left, A.Elements(on));
    ElementsAtMost(on);
  }

  lemma VolumeCount(v: V.Volume, cal: Calendar, device: string)
    requires v.Valid()
    ensures device in v.perDevice <==> |A.CompleteOn(Values(v.backups, cal), device)| > 0
    ensures device in v.perDevice ==> v.perDevice[device].count == |A.CompleteOn(Values(v.backups, cal), device)|
  {
    v.Tallied();
    SameCount(v.Infos(), Values(v.backups, cal), device);
  }

  lemma VolumeCounts(v: V.Volume, cal: Calendar)
    requires v.Valid()
    ensures forall d :: d in v.perDevice <==> |A.CompleteOn(Values(v.backups, cal), d)| > 0
    ensures forall d :: d in v.perDevice ==> v.perDevice[d].count == |A.CompleteOn(Values(v.backups, cal), d)|
  {
    forall d
      ensures d in v.perDevice <==> |A.CompleteOn(Values(v.backups, cal), d)| > 0
      ensures d in v.perDevice ==> v.perDevice[d].count == |A.CompleteOn(Values(v.backups, cal), d)|
    {
      VolumeCount(v, cal, d);
    }
  }

  // ----- Which backups are pruned

  /** The places among the first `n` backups of the complete ones on the device … */
  ghost function CompleteOn(bs: seq<V.Backup>, n: nat, device: string): set<nat>
    requires n <= |bs|
    reads bs
  {
    set j: nat | j < n && bs[j].status == Complete && bs[j].device == device
  }

  /** … and of those of them that were made more than `pruneAge` days ago. */
  ghost function TooOldOn(bs: seq<V.Backup>, n: nat, device: string, cal: Calendar, pruneAge: int): set<nat>
    requires n <= |bs|
    reads bs
  {
    set j: nat | j < n && bs[j].status == Complete && bs[j].device == device
                 && D.Minus(cal.today, cal.date(bs[j].time)) > pruneAge
  }

  /** What becomes of the `i`th backup: a complete one is pruned just if pruning
      was asked for, it was made more than `pruneAge` days ago, and the too old
      ones before it on its device are so few that the minimum is left; another
      one just if its removal was begun, or if that was asked for and it has not
      been removed. */
  ghost function Fate(bs: seq<V.Backup>, i: nat, c: A.Command, cal: Calendar): Status
    requires i < |bs|
    reads bs
  {
    var b := bs[i];
    match b.status
    case Complete =>
      if c.prune && D.Minus(cal.today, cal.date(b.time)) > c.pruneAge
         && |TooOldOn(bs, i, b.device, cal, c.pruneAge)| + c.minBackups < |CompleteOn(bs, |bs|, b.device)|
      then Pruning else Complete
    case Pruned => Pruned
    case Pruning => Pruning
    case other => if c.pruneIncomplete then Pruning else other
  }

  lemma FateIs(v: V.Volume, c: A.Command, cal: Calendar, i: nat)
    requires v.Valid() && i < |v.backups|
    ensures var xs := Values(v.backups, cal);
            Fate(v.backups, i, c, cal) == if A.Obsolete(c, xs, xs[i]) then Pruning else xs[i].status
  {
    var b, xs := v.backups[i], Values(v.backups, cal);
    ValuesDiffer(v, cal);
    assert xs[i] in xs && xs[i] == ValueOf(b, cal);
    if b.status == Complete {
      A.PrunedIff(xs, i, c.pruneAge, c.minBackups);
      PlacesAgree(v, cal, i, b.device, c.pruneAge);
      PlacesAgree(v, cal, |xs|, b.device, c.pruneAge);
    }
  }

  lemma Fates(v: V.Volume, c: A.Command, cal: Calendar)
    requires v.Valid()
    ensures var xs := Values(v.backups, cal);
            forall i :: 0 <= i < |xs| ==>
              Fate(v.backups, i, c, cal) == if A.Obsolete(c, xs, xs[i]) then Pruning else xs[i].status
  {
    forall i | 0 <= i < |v.backups|
      ensures var xs := Values(v.backups, cal);
              Fate(v.backups, i, c, cal) == if A.Obsolete(c, xs, xs[i]) then Pruning else xs[i].status
    {
      FateIs(v, c, cal, i);
    }
  }

  lemma NotObsolete(v: V.Volume, c: A.Command, cal: Calendar, i: nat)
    requires v.Valid() && i < |v.backups|
    ensures var xs := Values(v.backups, cal);
            A.Obsolete(c, xs, xs[i]) <==> Fate(v.backups, i, c, cal) == Pruning
  {
    FateIs(v, c, cal, i);
    var xs := Values(v.backups, cal);
    assert xs[i] in xs;
  }

  /** If a backup is pruned for its age so are all older ones on the device. */
  lemma OlderPrunedToo(v: V.Volume, c: A.Command, cal: Calendar, i: nat, j: nat)
    requires v.Valid() && cal.Ordered() && i < j < |v.backups| && v.backups[i].device == v.backups[j].device
    requires v.backups[i].status == v.backups[j].status == Complete && Fate(v.backups, j, c, cal) == Pruning
    ensures v.backups[i].time < v.backups[j].time && Fate(v.backups, i, c, cal) == Pruning
  {
    v.InOrder();
    var bs, d := v.backups, v.backups[i].device;
    LexIrreflexive(d);
    assert V.Before(bs[i], bs[j]);
    D.LaterIsNotOlder(cal.today, cal.date(bs[i].time), cal.date(bs[j].time));
    PlacesWithin(TooOldOn(bs, i, d, cal, c.pruneAge), TooOldOn(bs, j, d, cal, c.pruneAge));
  }

  lemma {:induction false} PlacesWithin(a: set<nat>, b: set<nat>)
    requires a <= b
    ensures |a| <= |b|
  {
    if a != {} {
      var x :| x in a;
      PlacesWithin(a - {x}, b - {x});
    }
  }

  lemma PlacesAgree(v: V.Volume, cal: Calendar, n: nat, device: string, pruneAge: int)
    requires n <= |v.backups|
    ensures var xs := Values(v.backups, cal);
            A.TooOldPlaces(xs, n, device, pruneAge) == TooOldOn(v.backups, n, device, cal, pruneAge)
            && A.CompletePlaces(xs, n, device) == CompleteOn(v.backups, n, device)
  {
    var xs := Values(v.backups, cal);
    forall j: nat | j < n ensures xs[j] == ValueOf(v.backups[j], cal) {}
  }

  /** Of `n` complete backups on a device, `q` of them too old, min(q, n - minimum)
      are pruned, or none if there is no more than the minimum. */
  lemma HowManyPruned(v: V.Volume, c: A.Command, cal: Calendar, device: string)
    requires c.prune
    ensures var bs := v.backups;
            var n, q := |CompleteOn(bs, |bs|, device)|, |TooOldOn(bs, |bs|, device, cal, c.pruneAge)|;
            |set j: nat | j in CompleteOn(bs, |bs|, device) && Fate(bs, j, c, cal) == Pruning|
            == A.Min(q, if n <= c.minBackups then 0 else n - c.minBackups)
  {
    var bs, xs := v.backups, Values(v.backups, cal);
    var n := |CompleteOn(bs, |bs|, device)|;
    var most := if n <= c.minBackups then 0 else n - c.minBackups;
    A.FirstTooOldCount(xs, |xs|, device, c.pruneAge, most);
    forall j: nat | j <= |bs| ensures A.TooOldPlaces(xs, j, device, c.pruneAge) == TooOldOn(bs, j, device, cal, c.pruneAge) {
      PlacesAgree(v, cal, j, device, c.pruneAge);
    }
    assert (set j: nat | j in CompleteOn(bs, |bs|, device) && Fate(bs, j, c, cal) == Pruning)
        == A.FirstTooOld(xs, |xs|, device, c.pruneAge, most);
  }

  // ----- findObsoleteBackups and markObsoleteBackups, for one volume

  method FindObsolete(v: V.Volume, c: A.Command, cal: Calendar) returns (obsolete: seq<V.Backup>)
    requires v.Valid() && c.minBackups >= 1
    ensures forall i, j :: 0 <= i < j < |obsolete| ==> obsolete[i] != obsolete[j]
    ensures forall b :: b in obsolete ==> b in v.backups
    ensures forall i :: 0 <= i < |v.backups| ==> (v.backups[i] in obsolete <==> Fate(v.backups, i, c, cal) == Pruning)
  {
    ghost var all := Values(v.backups, cal);
    ValuesDiffer(v, cal);
    var values: seq<A.Backup> := [];
    for i := 0 to |v.backups|
      invariant values == all[..i]
    {
      values := values + [ValueOf(v.backups[i], cal)];
    }
    assert values == all;
    var found := A.FindObsolete(c, values);
    obsolete := [];
    for i := 0 to |v.backups|
      invariant forall j, k :: 0 <= j < k < |obsolete| ==> obsolete[j] != obsolete[k]
      invariant forall b :: b in obsolete <==> b in v.backups[..i] && A.Obsolete(c, all, ValueOf(b, cal))
    {
      assert all[i] == ValueOf(v.backups[i], cal);
      if values[i] in found { obsolete := obsolete + [v.backups[i]]; }
    }
    forall i | 0 <= i < |v.backups| ensures v.backups[i] in obsolete <==> Fate(v.backups, i, c, cal) == Pruning {
      assert all[i] == ValueOf(v.backups[i], cal);
      NotObsolete(v, c, cal, i);
    }
  }

  /** Both, one after the other. */
  method FindAndMark(v: V.Volume, c: A.Command, cal: Calendar)
    requires v.Valid() && c.minBackups >= 1
    modifies v, v.backups`status
    ensures v.Valid() && v.backups == old(v.backups)
    ensures forall i :: 0 <= i < |v.backups| ==> v.backups[i].status == old(Fate(v.backups, i, c, cal))
  {
    var obsolete := FindObsolete(v, c, cal);
    forall i | 0 <= i < |obsolete| ensures obsolete[i] in v.backups {
      assert obsolete[i] in obsolete;
    }
    assert forall o: object :: o in obsolete ==> o in v.backups;
    V.MarkObsolete(v, obsolete);
  }

  lemma MinimumCounted(v: V.Volume, c: A.Command, cal: Calendar, before: seq<A.Backup>, device: string)
    requires v.Valid() && A.NoRepeats(before) && Marked(c, before, Values(v.backups, cal))
    requires c.minBackups >= 1 && |A.CompleteOn(before, device)| > 0
    ensures device in v.perDevice && v.perDevice[device].count >= A.Min(|A.CompleteOn(before, device)|, c.minBackups)
  {
    CountKept(c, before, Values(v.backups, cal), device);
    VolumeCount(v, cal, device);
  }

  /** Afterwards every backup has its fate, the statistics are right, and every
      device that had complete backups still counts its minimum of them, or all
      it had. */
  method Prune(v: V.Volume, c: A.Command, cal: Calendar)
    requires v.Valid() && c.minBackups >= 1
    modifies v, v.backups`status
    ensures v.Valid() && v.backups == old(v.backups)
    ensures forall i :: 0 <= i < |v.backups| ==> v.backups[i].status == old(Fate(v.backups, i, c, cal))
    ensures forall d :: d in old(v.perDevice) ==>
                          d in v.perDevice && v.perDevice[d].count >= A.Min(old(v.perDevice)[d].count, c.minBackups)
  {
    ghost var before := Values(v.backups, cal);
    ValuesDiffer(v, cal);
    VolumeCounts(v, cal);
    Fates(v, c, cal);
    FindAndMark(v, c, cal);
    assert Marked(c, before, Values(v.backups, cal));
    forall d | d in old(v.perDevice)
      ensures d in v.perDevice && v.perDevice[d].count >= A.Min(old(v.perDevice)[d].count, c.minBackups)
    {
      MinimumCounted(v, c, cal, before, d);
    }
  }
}
