/** A volume's set of backups and the statistics it caches about the complete
    ones. Backups are shared, mutable objects: a change of status must reach the
    statistics of the volume. */
module Volumes {
  import opened Folding
  import opened Lifecycle
  import opened Strings

  // ----- What the statistics should say

  /** What counts of a backup. */
  datatype Info = Info(device: string, time: int, size: int, complete: bool)

  datatype PerDevice = PerDevice(count: int, oldest: int, newest: int, size: int)

  datatype Stats = Stats(completed: int, oldest: int, newest: int, perDevice: map<string, PerDevice>)

  ghost predicate On(info: Info, device: string) { info.complete && info.device == device }

  ghost function Total(infos: seq<Info>): nat {
    if infos == [] then 0 else Total(infos[..|infos| - 1]) + if infos[|infos| - 1].complete then 1 else 0
  }

  ghost function TotalOn(infos: seq<Info>, device: string): nat {
    if infos == [] then 0
    else TotalOn(infos[..|infos| - 1], device) + if On(infos[|infos| - 1], device) then 1 else 0
  }

  /** The times of the complete backups are between `lo` and `hi`, and both occur. */
  ghost predicate Extremes(infos: seq<Info>, lo: int, hi: int) {
    (forall i :: 0 <= i < |infos| && infos[i].complete ==> lo <= infos[i].time <= hi)
    && (exists i :: 0 <= i < |infos| && infos[i].complete && infos[i].time == lo)
    && exists i :: 0 <= i < |infos| && infos[i].complete && infos[i].time == hi
  }

  /** The same for one device, with the size of a newest backup. */
  ghost predicate ExtremesOn(infos: seq<Info>, device: string, pd: PerDevice) {
    (forall i :: 0 <= i < |infos| && On(infos[i], device) ==> pd.oldest <= infos[i].time <= pd.newest)
    && (exists i :: 0 <= i < |infos| && On(infos[i], device) && infos[i].time == pd.oldest)
    && exists i :: 0 <= i < |infos| && On(infos[i], device) && infos[i].time == pd.newest && infos[i].size == pd.size
  }

  ghost predicate Accurate(infos: seq<Info>, s: Stats) {
    s.completed == Total(infos)
    && (s.completed > 0 ==> Extremes(infos, s.oldest, s.newest))
    && (forall d :: d in s.perDevice <==> TotalOn(infos, d) > 0)
    && forall d :: d in s.perDevice ==> s.perDevice[d].count == TotalOn(infos, d) && ExtremesOn(infos, d, s.perDevice[d])
  }

  /** `Accurate`, folded. */
  ghost predicate Tallies(infos: seq<Info>, s: Stats) {
    forall k {:trigger Unfold(k)} :: Unfold(k) ==> Accurate(infos, s)
  }

  /** While the loop of `calculate` runs, devices may be listed with none. */
  ghost predicate PartlyAccurate(infos: seq<Info>, s: Stats) {
    forall k {:trigger Unfold(k)} :: Unfold(k) ==> PartlyCounted(infos, s)
  }

  ghost predicate PartlyCounted(infos: seq<Info>, s: Stats) {
    s.completed == Total(infos)
    && (s.completed > 0 ==> Extremes(infos, s.oldest, s.newest))
    && (forall d :: TotalOn(infos, d) > 0 ==> d in s.perDevice)
    && forall d :: d in s.perDevice ==>
                     s.perDevice[d].count == TotalOn(infos, d)
                     && (TotalOn(infos, d) > 0 ==> ExtremesOn(infos, d, s.perDevice[d]))
  }

  // ----- One step of the loop

  function CountOne(s: Stats, info: Info): Stats {
    if !info.complete then s
    else
      var n := s.completed + 1;
      var pd := if info.device in s.perDevice then s.perDevice[info.device] else PerDevice(0, 0, 0, 0);
      Stats(n,
            if n == 1 || info.time < s.oldest then info.time else s.oldest,
            if n == 1 || info.time > s.newest then info.time else s.newest,
            s.perDevice[info.device := CountOn(pd, info)])
  }

  function CountOn(pd: PerDevice, info: Info): PerDevice {
    var first := pd.count + 1 == 1;
    PerDevice(pd.count + 1,
              if first || info.time < pd.oldest then info.time else pd.oldest,
              if first || info.time > pd.newest then info.time else pd.newest,
              if first || info.time > pd.newest then info.size else pd.size)
  }

  lemma {:induction false} NoneCounted(infos: seq<Info>, device: string)
    ensures Total(infos) == 0 <==> forall i :: 0 <= i < |infos| ==> !infos[i].complete
    ensures TotalOn(infos, device) == 0 <==> forall i :: 0 <= i < |infos| ==> !On(infos[i], device)
  {
    if infos != [] { NoneCounted(infos[..|infos| - 1], device); }
  }

  ghost function Places(infos: seq<Info>): set<nat> { set i: nat | i < |infos| && infos[i].complete }

  ghost function PlacesOn(infos: seq<Info>, device: string): set<nat> { set i: nat | i < |infos| && On(infos[i], device) }

  lemma {:induction false} TotalPlaces(infos: seq<Info>)
    ensures Total(infos) == |Places(infos)|
  {
    if infos == [] {
      assert Places(infos) == {};
    } else {
      var n := |infos| - 1;
      TotalPlaces(infos[..n]);
      assert Places(infos) == if infos[n].complete then Places(infos[..n]) + {n} else Places(infos[..n]);
    }
  }

  lemma {:induction false} TotalOnPlaces(infos: seq<Info>, device: string)
    ensures TotalOn(infos, device) == |PlacesOn(infos, device)|
  {
    if infos == [] {
      assert PlacesOn(infos, device) == {};
    } else {
      var n := |infos| - 1;
      TotalOnPlaces(infos[..n], device);
      assert PlacesOn(infos, device) == if On(infos[n], device) then PlacesOn(infos[..n], device) + {n} else PlacesOn(infos[..n], device);
    }
  }

  lemma ExtremesMore(infos: seq<Info>, s: Stats, info: Info)
    requires PartlyCounted(infos, s) && info.complete
    ensures Extremes(infos + [info], CountOne(s, info).oldest, CountOne(s, info).newest)
  {
    var more, s' := infos + [info], CountOne(s, info);
    NoneCounted(infos, info.device);
    assert more[|infos|] == info;
    if s.completed > 0 {
      var i :| 0 <= i < |infos| && infos[i].complete && infos[i].time == s.oldest;
      var j :| 0 <= j < |infos| && infos[j].complete && infos[j].time == s.newest;
      assert more[i] == infos[i] && more[j] == infos[j];
    }
    forall k | 0 <= k < |more| && more[k].complete ensures s'.oldest <= more[k].time <= s'.newest {
      if k < |infos| { assert more[k] == infos[k]; }
    }
  }

  lemma ExtremesOnMore(infos: seq<Info>, pd: PerDevice, info: Info)
    requires info.complete && pd.count == TotalOn(infos, info.device)
    requires pd.count > 0 ==> ExtremesOn(infos, info.device, pd)
    ensures ExtremesOn(infos + [info], info.device, CountOn(pd, info))
  {
    var more, d, pd' := infos + [info], info.device, CountOn(pd, info);
    NoneCounted(infos, d);
    assert more[|infos|] == info;
    if pd.count > 0 {
      var i :| 0 <= i < |infos| && On(infos[i], d) && infos[i].time == pd.oldest;
      var j :| 0 <= j < |infos| && On(infos[j], d) && infos[j].time == pd.newest && infos[j].size == pd.size;
      assert more[i] == infos[i] && more[j] == infos[j];
    }
    forall k | 0 <= k < |more| && On(more[k], d) ensures pd'.oldest <= more[k].time <= pd'.newest {
      if k < |infos| { assert more[k] == infos[k]; }
    }
  }

  lemma ExtremesOnOther(infos: seq<Info>, device: string, pd: PerDevice, info: Info)
    requires ExtremesOn(infos, device, pd) && !On(info, device)
    ensures ExtremesOn(infos + [info], device, pd)
  {
    var more := infos + [info];
    var i :| 0 <= i < |infos| && On(infos[i], device) && infos[i].time == pd.oldest;
    var j :| 0 <= j < |infos| && On(infos[j], device) && infos[j].time == pd.newest && infos[j].size == pd.size;
    assert more[i] == infos[i] && more[j] == infos[j];
    forall k | 0 <= k < |more| && On(more[k], device) ensures pd.oldest <= more[k].time <= pd.newest {
      assert more[k] == infos[k];
    }
  }

  lemma ExtremesOther(infos: seq<Info>, lo: int, hi: int, info: Info)
    requires Extremes(infos, lo, hi) && !info.complete
    ensures Extremes(infos + [info], lo, hi)
  {
    var more := infos + [info];
    var i :| 0 <= i < |infos| && infos[i].complete && infos[i].time == lo;
    var j :| 0 <= j < |infos| && infos[j].complete && infos[j].time == hi;
    assert more[i] == infos[i] && more[j] == infos[j];
    forall k | 0 <= k < |more| && more[k].complete ensures lo <= more[k].time <= hi {
      assert more[k] == infos[k];
    }
  }

  lemma CountOneAccurate(infos: seq<Info>, s: Stats, info: Info)
    requires PartlyAccurate(infos, s)
    ensures PartlyAccurate(infos + [info], CountOne(s, info))
  {
    assert Unfold(0);
    var more, s' := infos + [info], CountOne(s, info);
    if info.complete {
      ExtremesMore(infos, s, info);
    } else if s.completed > 0 {
      ExtremesOther(infos, s.oldest, s.newest, info);
    }
    forall d ensures TotalOn(more, d) > 0 ==> d in s'.perDevice {
    }
    forall d | d in s'.perDevice
      ensures s'.perDevice[d].count == TotalOn(more, d)
      ensures TotalOn(more, d) > 0 ==> ExtremesOn(more, d, s'.perDevice[d])
    {
      if On(info, d) {
        ExtremesOnMore(infos, if d in s.perDevice then s.perDevice[d] else PerDevice(0, 0, 0, 0), info);
      } else if TotalOn(infos, d) > 0 {
        ExtremesOnOther(infos, d, s.perDevice[d], info);
      }
    }
  }

  function Zeroed(s: Stats): Stats {
    s.(completed := 0, perDevice := map d | d in s.perDevice :: s.perDevice[d].(count := 0))
  }

  function WithoutEmpty(s: Stats): Stats {
    s.(perDevice := map d | d in s.perDevice && s.perDevice[d].count != 0 :: s.perDevice[d])
  }

  lemma WithoutEmptyAccurate(infos: seq<Info>, s: Stats)
    requires PartlyAccurate(infos, s)
    ensures Tallies(infos, WithoutEmpty(s)) && s.completed >= 0
  {
    assert Unfold(0);
  }

  // ----- The objects

  class Backup {
    const id: string
    const device: string
    const time: int
    const size: int
    var status: Status
    var volume: Volume?

    constructor (id: string, device: string, time: int, size: int)
      ensures this.id == id && this.device == device && this.time == time && this.size == size
      ensures status == Unknown && volume == null
    {
      this.id, this.device, this.time, this.size := id, device, time, size;
      status, volume := Unknown, null;
    }

    function GetInfo(): Info
      reads this`status
    {
      Info(device, time, size, status == Complete)
    }

    /** Change the status, and the statistics of the volume with it. */
    method SetStatus(n: Status)
      requires volume != null ==> volume.Valid()
      modifies this`status
      modifies if volume == null then {} else {volume}
      ensures status == n
      ensures volume != null ==> volume.Valid() && volume.backups == old(volume.backups)
    {
      if status != n {
        status := n;
        if volume != null {
          volume.Calculate();
        }
      }
    }
  }

  /** `operator<`: by time, then by device. */
  predicate Before(a: Backup, b: Backup) {
    a.time < b.time || (a.time == b.time && LexLess(a.device, b.device))
  }

  /** Two backups count as equal just if they have the same time and device. */
  lemma EqualIff(a: Backup, b: Backup)
    ensures !Before(a, b) && !Before(b, a) <==> a.time == b.time && a.device == b.device
    ensures a.time < b.time ==> Before(a, b)
  {
    LexTrichotomy(a.device, b.device);
    LexIrreflexive(a.device);
  }

  /** In order, without equals; folded. */
  ghost predicate Ordered(bs: seq<Backup>) {
    forall k {:trigger Unfold(k)} :: Unfold(k) ==> forall i, j :: 0 <= i < j < |bs| ==> Before(bs[i], bs[j])
  }

  lemma OrderedInsert(bs: seq<Backup>, k: nat, b: Backup)
    requires Ordered(bs) && k <= |bs|
    requires forall i :: 0 <= i < k ==> Before(bs[i], b)
    requires k < |bs| ==> Before(b, bs[k])
    ensures Ordered(bs[..k] + [b] + bs[k..])
    ensures forall i :: k <= i < |bs| ==> Before(b, bs[i])
  {
    assert Unfold(0);
    forall i | k <= i < |bs| ensures Before(b, bs[i]) {
      if i > k { BeforeTransitive(b, bs[k], bs[i]); }
    }
  }

  lemma OrderedRemove(bs: seq<Backup>, k: nat)
    requires Ordered(bs) && k < |bs|
    ensures Ordered(bs[..k] + bs[k + 1..]) && bs[k] !in bs[..k] + bs[k + 1..]
  {
    assert Unfold(0);
    forall i | 0 <= i < |bs| && i != k ensures bs[i] != bs[k] {
      assert if i < k then Before(bs[i], bs[k]) else Before(bs[k], bs[i]);
      LexIrreflexive(bs[k].device);
    }
  }

  class Volume {
    var backups: seq<Backup>      // in order, without equals
    var completed: int
    var oldest: int
    var newest: int
    var perDevice: map<string, PerDevice>

    ghost function Infos(): seq<Info>
      reads this`backups, backups
    {
      var bs := backups;
      seq(|bs|, i requires 0 <= i < |bs| reads bs => bs[i].GetInfo())
    }

    ghost function Cached(): Stats
      reads this
    {
      Stats(completed, oldest, newest, perDevice)
    }

    ghost predicate Shape()
      reads this`backups, backups`volume
    {
      (forall i :: 0 <= i < |backups| ==> backups[i].volume == this)
      && Ordered(backups)
    }

    ghost predicate Valid()
      reads this, backups
    {
      Shape() && Tallies(Infos(), Cached())
    }

    lemma Tallied()
      requires Valid()
      ensures Accurate(Infos(), Cached())
    {
      assert Unfold(0);
    }

    ghost predicate IsComplete(i: nat)
      reads this`backups, backups
    {
      i < |backups| && backups[i].status == Complete
    }

    ghost predicate IsCompleteOn(i: nat, device: string)
      reads this`backups, backups
    {
      i < |backups| && backups[i].status == Complete && backups[i].device == device
    }

    /** In every valid state, so after every sequence of operations, the cached
        statistics are those of the complete backups: their number … */
    lemma CountAccurate()
      requires Valid()
      ensures completed == |set i: nat | i < |backups| && IsComplete(i)|
      ensures forall d :: d in perDevice <==> exists i: nat :: IsCompleteOn(i, d)
      ensures forall d :: d in perDevice ==> perDevice[d].count == |set i: nat | i < |backups| && IsCompleteOn(i, d)|
    {
      Tallied();
      var infos := Infos();
      TotalPlaces(infos);
      assert (set i: nat | i < |backups| && IsComplete(i)) == Places(infos);
      forall d
        ensures d in perDevice <==> exists i: nat :: IsCompleteOn(i, d)
        ensures d in perDevice ==> perDevice[d].count == |set i: nat | i < |backups| && IsCompleteOn(i, d)|
      {
        TotalOnPlaces(infos, d);
        NoneCounted(infos, d);
        forall i: nat | i < |infos| ensures On(infos[i], d) <==> IsCompleteOn(i, d) {}
        assert (set i: nat | i < |backups| && IsCompleteOn(i, d)) == PlacesOn(infos, d);
      }
    }

    /** … and the times of the oldest and the newest, and the size of a newest. */
    lemma ExtremesAccurate()
      requires Valid()
      ensures forall i: nat :: IsComplete(i) ==> oldest <= backups[i].time <= newest
      ensures completed > 0 ==> exists i: nat :: IsComplete(i) && backups[i].time == oldest
      ensures completed > 0 ==> exists i: nat :: IsComplete(i) && backups[i].time == newest
      ensures forall d, i: nat :: IsCompleteOn(i, d) ==>
                d in perDevice && perDevice[d].oldest <= backups[i].time <= perDevice[d].newest
      ensures forall d :: d in perDevice ==>
                (exists i: nat :: IsCompleteOn(i, d) && backups[i].time == perDevice[d].oldest)
                && exists i: nat :: IsCompleteOn(i, d) && backups[i].time == perDevice[d].newest && backups[i].size == perDevice[d].size
    {
      Tallied();
      var infos := Infos();
      NoneCounted(infos, "");
      if completed > 0 {
        var i :| 0 <= i < |infos| && infos[i].complete && infos[i].time == oldest;
        var j :| 0 <= j < |infos| && infos[j].complete && infos[j].time == newest;
        assert IsComplete(i) && IsComplete(j);
      }
      forall i: nat | IsComplete(i) ensures oldest <= backups[i].time <= newest {
        assert infos[i].complete;
      }
      forall d, i: nat | IsCompleteOn(i, d)
        ensures d in perDevice && perDevice[d].oldest <= backups[i].time <= perDevice[d].newest
      {
        NoneCounted(infos, d);
        assert On(infos[i], d);
      }
      forall d | d in perDevice
        ensures exists i: nat :: IsCompleteOn(i, d) && backups[i].time == perDevice[d].oldest
        ensures exists i: nat :: IsCompleteOn(i, d) && backups[i].time == perDevice[d].newest && backups[i].size == perDevice[d].size
      {
        var pd := perDevice[d];
        var i :| 0 <= i < |infos| && On(infos[i], d) && infos[i].time == pd.oldest;
        var j :| 0 <= j < |infos| && On(infos[j], d) && infos[j].time == pd.newest && infos[j].size == pd.size;
        assert IsCompleteOn(i, d) && IsCompleteOn(j, d);
      }
    }

    lemma InOrder()
      requires Valid()
      ensures forall i, j :: 0 <= i < j < |backups| ==> Before(backups[i], backups[j])
    {
      assert Unfold(0);
    }

    constructor ()
      ensures Valid() && backups == []
    {
      backups, completed, oldest, newest, perDevice := [], 0, 0, 0, map[];
      new;
      assert Accurate(Infos(), Cached());
    }

    /** Recompute everything. `oldest` and `newest` keep their values when there
        is no complete backup. */
    method Calculate()
      requires Shape()
      modifies this`completed, this`oldest, this`newest, this`perDevice
      ensures Valid()
      ensures completed == 0 ==> oldest == old(oldest) && newest == old(newest)
    {
      ghost var infos := Infos();
      var s := Zeroed(Stats(completed, oldest, newest, perDevice));
      for i := 0 to |backups|
        invariant PartlyAccurate(infos[..i], s)
        invariant s.completed >= 0 && (s.completed == 0 ==> s.oldest == old(oldest) && s.newest == old(newest))
      {
        assert infos[..i + 1] == infos[..i] + [infos[i]];
        CountOneAccurate(infos[..i], s, infos[i]);
        s := CountOne(s, backups[i].GetInfo());
      }
      assert infos[..|backups|] == infos;
      WithoutEmptyAccurate(infos, s);
      s := WithoutEmpty(s);
      completed, oldest, newest, perDevice := s.completed, s.oldest, s.newest, s.perDevice;
    }

    /** Insert unless an equal backup is there. */
    method AddBackup(b: Backup) returns (inserted: bool)
      requires Valid() && b.volume == this
      modifies this
      ensures Valid()
      ensures inserted <==> forall i :: 0 <= i < |old(backups)| ==>
                                         old(backups)[i].time != b.time || old(backups)[i].device != b.device
      ensures if inserted then exists k :: 0 <= k <= |old(backups)| && backups == old(backups)[..k] + [b] + old(backups)[k..]
              else backups == old(backups)
    {
      var k := 0;
      while k < |backups| && Before(backups[k], b)
        invariant 0 <= k <= |backups|
        invariant forall i :: 0 <= i < k ==> Before(backups[i], b)
      {
        k := k + 1;
      }
      if k < |backups| {
        EqualIff(b, backups[k]);
        if !Before(b, backups[k]) { return false; }
      }
      OrderedInsert(backups, k, b);
      forall i | 0 <= i < |backups| ensures backups[i].time != b.time || backups[i].device != b.device {
        EqualIff(backups[i], b);
      }
      backups := backups[..k] + [b] + backups[k..];
      Calculate();
      return true;
    }

    method RemoveBackup(b: Backup) returns (removed: bool)
      requires Valid()
      modifies this
      ensures Valid()
      ensures removed <==> b in old(backups)
      ensures removed ==> exists k :: 0 <= k < |old(backups)| && old(backups)[k] == b && backups == old(backups)[..k] + old(backups)[k + 1..]
      ensures b !in backups
      ensures !removed ==> backups == old(backups)
    {
      for k := 0 to |backups|
        invariant b !in backups[..k]
      {
        if backups[k] == b {
          OrderedRemove(backups, k);
          backups := backups[..k] + backups[k + 1..];
          Calculate();
          return true;
        }
      }
      return false;
    }
  }

  lemma BeforeTransitive(a: Backup, b: Backup, c: Backup)
    requires Before(a, b) && Before(b, c)
    ensures Before(a, c)
  {
    if a.time == b.time == c.time { LexTransitive(a.device, b.device, c.device); }
  }

  /** `markObsoleteBackups`, for the backups of one volume: those listed are being
      pruned afterwards, the others are as they were, and the statistics count
      what is left. */
  method MarkObsolete(v: Volume, obsolete: seq<Backup>)
    requires v.Valid() && forall b :: b in obsolete ==> b.volume == v
    modifies v, obsolete`status
    ensures v.Valid() && v.backups == old(v.backups)
    ensures forall b :: b in obsolete ==> b.status == Pruning
    ensures forall b :: b in v.backups && b !in obsolete ==> b.status == old(b.status)
  {
    for i := 0 to |obsolete|
      invariant v.Valid() && v.backups == old(v.backups)
      invariant forall b :: b in obsolete[..i] ==> b.status == Pruning
      invariant forall b :: b in v.backups && b !in obsolete ==> b.status == old(b.status)
    {
      var b := obsolete[i];
      if b.status != Pruning {
        b.SetStatus(Pruning);
      }
    }
  }
}
