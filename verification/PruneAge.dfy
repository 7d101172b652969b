/** The `age` pruning policy and the selection of obsolete backups: which
    backups of a volume `findObsoleteBackups` puts on its list, and what is left
    when they have been marked. */
module PruneAge {
  import opened Folding
  import opened Lifecycle

  /** A backup of the volume; `age` is today's date less the date of `time`. */
  datatype Backup = Backup(id: string, device: string, time: int, age: int, status: Status)

  datatype Reason = Reason(age: int, pruneAge: int, remaining: nat, minBackups: nat)

  ghost function Elements(xs: seq<Backup>): set<Backup> { set b | b in xs }

  ghost predicate NoRepeats(xs: seq<Backup>) {
    forall i, j :: 0 <= i < j < |xs| ==> xs[i] != xs[j]
  }

  function Min(a: int, b: int): int { if a < b then a else b }

  // ----- What the policy prunes

  /** Of the first `n`, the ones that are too old. */
  ghost function TooOldAmong(xs: seq<Backup>, n: nat, pruneAge: int): seq<Backup>
    requires n <= |xs|
  {
    if n == 0 then []
    else TooOldAmong(xs, n - 1, pruneAge) + if xs[n - 1].age > pruneAge then [xs[n - 1]] else []
  }

  ghost function TooOld(xs: seq<Backup>, pruneAge: int): seq<Backup> { TooOldAmong(xs, |xs|, pruneAge) }

  /** How many backups the device can spare. */
  ghost function Spare(n: nat, minBackups: nat): nat { if n <= minBackups then 0 else n - minBackups }

  /** The first of those that are too old, as many as can be spared. */
  ghost function Pruned(onDevice: seq<Backup>, pruneAge: int, minBackups: nat): seq<Backup> {
    TooOld(onDevice, pruneAge)[..Min(|TooOld(onDevice, pruneAge)|, Spare(|onDevice|, minBackups))]
  }

  lemma {:induction false} TooOldMembers(xs: seq<Backup>, n: nat, pruneAge: int)
    requires n <= |xs|
    ensures |TooOldAmong(xs, n, pruneAge)| <= n
    ensures forall b :: b in TooOldAmong(xs, n, pruneAge) <==> b in Elements(xs[..n]) && b.age > pruneAge
    ensures NoRepeats(xs) ==> NoRepeats(TooOldAmong(xs, n, pruneAge))
  {
    if n > 0 {
      TooOldMembers(xs, n - 1, pruneAge);
      assert xs[..n] == xs[..n - 1] + [xs[n - 1]];
      assert Elements(xs[..n]) == Elements(xs[..n - 1]) + {xs[n - 1]};
      if NoRepeats(xs) {
        assert xs[n - 1] !in xs[..n - 1];
      }
    }
  }

  /** Of the first `n` backups, the first `k` of the too old are pruned; folded. */
  ghost predicate PrunedSoFar(xs: seq<Backup>, n: nat, pruneAge: int, minBackups: nat, k: nat, keys: set<Backup>) {
    n <= |xs|
    && forall z {:trigger Unfold(z)} :: Unfold(z) ==>
         var found := TooOldAmong(xs, n, pruneAge);
         k == Min(|found|, Spare(|xs|, minBackups)) && keys == Elements(found[..k])
  }

  lemma PrunedMore(xs: seq<Backup>, n: nat, pruneAge: int, minBackups: nat, k: nat, keys: set<Backup>)
    requires n < |xs| && PrunedSoFar(xs, n, pruneAge, minBackups, k, keys)
    ensures xs[n].age <= pruneAge || |xs| - k <= minBackups ==> PrunedSoFar(xs, n + 1, pruneAge, minBackups, k, keys)
    ensures xs[n].age > pruneAge && |xs| - k > minBackups ==> PrunedSoFar(xs, n + 1, pruneAge, minBackups, k + 1, keys + {xs[n]})
  {
    assert Unfold(0);
    var was, now := TooOldAmong(xs, n, pruneAge), TooOldAmong(xs, n + 1, pruneAge);
    if xs[n].age > pruneAge && |xs| - k > minBackups {
      assert was[..k] == was && now[..k + 1] == now;
      assert Elements(now) == Elements(was) + {xs[n]};
    } else {
      assert now[..k] == was[..k];
    }
  }

  method Prunable(onDevice: seq<Backup>, pruneAge: int, minBackups: nat) returns (prune: map<Backup, Reason>)
    requires onDevice != [] && NoRepeats(onDevice) && minBackups >= 1
    ensures prune.Keys == Elements(Pruned(onDevice, pruneAge, minBackups))
    ensures forall b :: b in prune ==> prune[b] == Reason(b.age, pruneAge, |onDevice|, minBackups)
  {
    prune := map[];
    var left := |onDevice|;
    ghost var k := 0;
    for i := 0 to |onDevice|
      invariant 0 <= k <= i && left == |onDevice| - k
      invariant PrunedSoFar(onDevice, i, pruneAge, minBackups, k, prune.Keys)
      invariant forall b :: b in prune ==> prune[b] == Reason(b.age, pruneAge, |onDevice|, minBackups)
    {
      var backup := onDevice[i];
      PrunedMore(onDevice, i, pruneAge, minBackups, k, prune.Keys);
      if backup.age <= pruneAge { continue; }
      if left <= minBackups { continue; }
      ghost var keys := prune.Keys;
      prune := prune[backup := Reason(backup.age, pruneAge, |onDevice|, minBackups)];
      assert prune.Keys == keys + {backup};
      k := k + 1;
      left := left - 1;
    }
    assert prune.Keys == Elements(Pruned(onDevice, pruneAge, minBackups)) by { assert Unfold(0); }
  }

  ghost predicate OldestFirst(xs: seq<Backup>) {
    forall i, j :: 0 <= i < j < |xs| ==> xs[j].age <= xs[i].age
  }

  /** The first `q` and no others are too old. */
  ghost predicate TooOldUpTo(xs: seq<Backup>, pruneAge: int, q: nat) {
    q <= |xs| && forall i :: 0 <= i < |xs| ==> (xs[i].age > pruneAge <==> i < q)
  }

  lemma {:induction false} TooOldCome(xs: seq<Backup>, pruneAge: int) returns (q: nat)
    requires OldestFirst(xs)
    ensures TooOldUpTo(xs, pruneAge, q)
  {
    q := 0;
    while q < |xs| && xs[q].age > pruneAge
      invariant q <= |xs| && forall i :: 0 <= i < q ==> xs[i].age > pruneAge
    {
      q := q + 1;
    }
  }

  lemma {:induction false} TooOldIsPrefix(xs: seq<Backup>, pruneAge: int, q: nat, n: nat)
    requires TooOldUpTo(xs, pruneAge, q) && n <= |xs|
    ensures TooOldAmong(xs, n, pruneAge) == if n < q then xs[..n] else xs[..q]
  {
    if n > 0 {
      TooOldIsPrefix(xs, pruneAge, q, n - 1);
      if n <= q { assert xs[..n] == xs[..n - 1] + [xs[n - 1]]; }
    }
  }

  /** In time order (oldest first) the too old come first, so what is pruned is
      the beginning of the list. */
  lemma PrunesTheOldest(onDevice: seq<Backup>, pruneAge: int, minBackups: nat) returns (q: nat)
    requires OldestFirst(onDevice)
    ensures TooOldUpTo(onDevice, pruneAge, q)
    ensures Pruned(onDevice, pruneAge, minBackups) == onDevice[..Min(q, Spare(|onDevice|, minBackups))]
  {
    q := TooOldCome(onDevice, pruneAge);
    TooOldIsPrefix(onDevice, pruneAge, q, |onDevice|);
  }

  // ----- findObsoleteBackups, for one volume

  ghost function CompleteOn(bs: seq<Backup>, device: string): seq<Backup> {
    if bs == [] then []
    else
      var b := bs[|bs| - 1];
      CompleteOn(bs[..|bs| - 1], device) + if b.status == Complete && b.device == device then [b] else []
  }

  lemma {:induction false} CompleteOnMembers(bs: seq<Backup>, device: string)
    ensures |CompleteOn(bs, device)| <= |bs|
    ensures forall b :: b in CompleteOn(bs, device) <==> b in bs && b.status == Complete && b.device == device
    ensures NoRepeats(bs) ==> NoRepeats(CompleteOn(bs, device))
  {
    if bs != [] {
      var ys, y := bs[..|bs| - 1], bs[|bs| - 1];
      CompleteOnMembers(ys, device);
      assert bs == ys + [y];
    }
  }

  /** The command line and the volume's policy. */
  datatype Command = Command(prune: bool, pruneIncomplete: bool, pruneAge: int, minBackups: nat)

  /** Listed because of its status alone: a removal that was begun always is, a
      backup that was not completed if that is asked for. */
  ghost predicate Unfinished(c: Command, b: Backup) {
    b.status == Pruning || (c.pruneIncomplete && b.status !in {Complete, Pruning, Status.Pruned})
  }

  ghost predicate Obsolete(c: Command, bs: seq<Backup>, b: Backup) {
    b in bs
    && (Unfinished(c, b)
        || (b.status == Complete && c.prune && b in Pruned(CompleteOn(bs, b.device), c.pruneAge, c.minBackups)))
  }

  ghost predicate GroupRight(bs: seq<Backup>, onDevices: map<string, seq<Backup>>, d: string) {
    if d in onDevices then onDevices[d] == CompleteOn(bs, d) && onDevices[d] != [] else CompleteOn(bs, d) == []
  }

  /** The complete backups of each device that has some, in order. */
  ghost predicate Grouped(bs: seq<Backup>, onDevices: map<string, seq<Backup>>) {
    forall k {:trigger Unfold(k)} :: Unfold(k) ==> forall d :: GroupRight(bs, onDevices, d)
  }

  lemma GroupedOther(bs: seq<Backup>, onDevices: map<string, seq<Backup>>, b: Backup)
    requires Grouped(bs, onDevices) && b.status != Complete
    ensures Grouped(bs + [b], onDevices)
  {
    assert Unfold(0);
    forall d ensures GroupRight(bs + [b], onDevices, d) {
      assert GroupRight(bs, onDevices, d);
    }
  }

  lemma GroupedMore(bs: seq<Backup>, onDevices: map<string, seq<Backup>>, b: Backup, on: seq<Backup>)
    requires Grouped(bs, onDevices) && b.status == Complete
    requires on == if b.device in onDevices then onDevices[b.device] else []
    ensures Grouped(bs + [b], onDevices[b.device := on + [b]])
  {
    assert Unfold(0);
    var more, grouped := bs + [b], onDevices[b.device := on + [b]];
    forall d ensures GroupRight(more, grouped, d) {
      assert GroupRight(bs, onDevices, d);
    }
  }

  method SortByStatus(c: Command, bs: seq<Backup>) returns (obsolete: seq<Backup>, onDevices: map<string, seq<Backup>>)
    requires NoRepeats(bs)
    ensures NoRepeats(obsolete) && forall b :: b in obsolete <==> b in bs && Unfinished(c, b)
    ensures if c.prune then Grouped(bs, onDevices) else onDevices == map[]
  {
    obsolete, onDevices := [], map[];
    assert Grouped(bs[..0], onDevices);
    for i := 0 to |bs|
      invariant NoRepeats(obsolete) && forall b :: b in obsolete <==> b in Elements(bs[..i]) && Unfinished(c, b)
      invariant if c.prune then Grouped(bs[..i], onDevices) else onDevices == map[]
    {
      var b := bs[i];
      assert bs[..i + 1] == bs[..i] + [b];
      if c.prune && b.status != Complete { GroupedOther(bs[..i], onDevices, b); }
      assert b !in Elements(bs[..i]);
      match b.status
      case Unknown | Underway | Failed =>
        if c.pruneIncomplete {
          obsolete := obsolete + [b];
        }
      case Pruning =>
        obsolete := obsolete + [b];
      case Pruned =>
      case Complete =>
        if c.prune {
          var on := if b.device in onDevices then onDevices[b.device] else [];
          GroupedMore(bs[..i], onDevices, b, on);
          onDevices := onDevices[b.device := on + [b]];
        }
    }
    assert bs[..|bs|] == bs;
  }

  /** A complete backup is found with its device. */
  lemma GroupedFinds(bs: seq<Backup>, onDevices: map<string, seq<Backup>>)
    requires Grouped(bs, onDevices)
    ensures forall d :: d in onDevices ==> onDevices[d] == CompleteOn(bs, d) && onDevices[d] != []
    ensures forall b :: b in bs && b.status == Complete ==> b.device in onDevices
  {
    assert Unfold(0);
    forall d | d in onDevices ensures onDevices[d] == CompleteOn(bs, d) && onDevices[d] != [] {
      assert GroupRight(bs, onDevices, d);
    }
    forall b | b in bs && b.status == Complete ensures b.device in onDevices {
      assert GroupRight(bs, onDevices, b.device);
      CompleteOnMembers(bs, b.device);
    }
  }

  method FindObsolete(c: Command, bs: seq<Backup>) returns (obsolete: seq<Backup>)
    requires NoRepeats(bs) && c.minBackups >= 1
    ensures NoRepeats(obsolete)
    ensures forall b :: b in obsolete <==> Obsolete(c, bs, b)
  {
    var onDevices;
    obsolete, onDevices := SortByStatus(c, bs);
    if c.prune { GroupedFinds(bs, onDevices); }
    var rest := onDevices.Keys;
    while rest != {}
      invariant rest <= onDevices.Keys
      invariant NoRepeats(obsolete)
      invariant forall b :: b in obsolete <==> Obsolete(c, bs, b) && (b.status == Complete ==> b.device !in rest)
      decreases |rest|
    {
      var d :| d in rest;
      CompleteOnMembers(bs, d);
      var prune := Prunable(onDevices[d], c.pruneAge, c.minBackups);
      PrunedMembers(onDevices[d], c.pruneAge, c.minBackups);
      obsolete := AddAll(obsolete, prune.Keys);
      rest := rest - {d};
    }
  }

  lemma PrunedMembers(onDevice: seq<Backup>, pruneAge: int, minBackups: nat)
    ensures forall b :: b in Pruned(onDevice, pruneAge, minBackups) ==> b in onDevice
  {
    TooOldMembers(onDevice, |onDevice|, pruneAge);
    assert onDevice[..|onDevice|] == onDevice;
    forall b | b in Pruned(onDevice, pruneAge, minBackups) ensures b in onDevice {
      assert b in TooOldAmong(onDevice, |onDevice|, pruneAge);
      assert b in Elements(onDevice);
    }
  }

  /** The keys of `prune`, in an order that depends on addresses. */
  method AddAll(obsolete: seq<Backup>, found: set<Backup>) returns (r: seq<Backup>)
    requires NoRepeats(obsolete) && forall b :: b in found ==> b !in obsolete
    ensures NoRepeats(r) && forall b :: b in r <==> b in obsolete || b in found
  {
    r := obsolete;
    var rest := found;
    while rest != {}
      invariant rest <= found && NoRepeats(r)
      invariant forall b :: b in r <==> b in obsolete || b in found - rest
      decreases |rest|
    {
      var b :| b in rest;
      r := r + [b];
      rest := rest - {b};
    }
  }

  // ----- What is left

  lemma {:induction false} DistinctCount(xs: seq<Backup>)
    requires NoRepeats(xs)
    ensures |Elements(xs)| == |xs|
  {
    if xs != [] {
      var ys, y := xs[..|xs| - 1], xs[|xs| - 1];
      DistinctCount(ys);
      assert xs == ys + [y];
      assert Elements(xs) == Elements(ys) + {y};
    } else {
      assert Elements(xs) == {};
    }
  }

  /** The backups of a device that count once the obsolete ones are marked. */
  ghost function LeftOn(c: Command, bs: seq<Backup>, device: string): set<Backup> {
    set b | b in bs && b.status == Complete && b.device == device && !Obsolete(c, bs, b)
  }

  /** After marking, a device still counts its minimum of complete backups, or
      all it had if it had no more. */
  lemma MinimumKept(c: Command, bs: seq<Backup>, device: string)
    requires NoRepeats(bs)
    ensures |LeftOn(c, bs, device)| >= Min(|CompleteOn(bs, device)|, c.minBackups)
  {
    var on := CompleteOn(bs, device);
    var gone := Pruned(on, c.pruneAge, c.minBackups);
    CompleteOnMembers(bs, device);
    TooOldMembers(on, |on|, c.pruneAge);
    DistinctCount(on);
    DistinctCount(gone);
    PrunedMembers(on, c.pruneAge, c.minBackups);
    assert Elements(gone) <= Elements(on);
    assert |Elements(on) - Elements(gone)| == |on| - |gone|;
    assert Elements(on) - Elements(gone) <= LeftOn(c, bs, device);
    SubsetSize(Elements(on) - Elements(gone), LeftOn(c, bs, device));
  }

  lemma {:induction false} SubsetSize(a: set<Backup>, b: set<Backup>)
    requires a <= b
    ensures |a| <= |b|
  {
    if a != {} {
      var x :| x in a;
      SubsetSize(a - {x}, b - {x});
    }
  }

  // ----- Which backups, by place

  /** Of the first `n` backups, the places of the complete ones on the device … */
  ghost function CompletePlaces(bs: seq<Backup>, n: nat, device: string): set<nat>
    requires n <= |bs|
  {
    set j: nat | j < n && bs[j].status == Complete && bs[j].device == device
  }

  /** … and of those that are too old among them. */
  ghost function TooOldPlaces(bs: seq<Backup>, n: nat, device: string, pruneAge: int): set<nat>
    requires n <= |bs|
  {
    set j: nat | j < n && bs[j].status == Complete && bs[j].device == device && bs[j].age > pruneAge
  }

  ghost function TooOldOn(bs: seq<Backup>, n: nat, device: string, pruneAge: int): seq<Backup>
    requires n <= |bs|
  {
    TooOld(CompleteOn(bs[..n], device), pruneAge)
  }

  lemma {:induction false} TooOldOfPrefix(xs: seq<Backup>, b: Backup, n: nat, pruneAge: int)
    requires n <= |xs|
    ensures TooOldAmong(xs + [b], n, pruneAge) == TooOldAmong(xs, n, pruneAge)
  {
    if n > 0 { TooOldOfPrefix(xs, b, n - 1, pruneAge); }
  }

  lemma TooOldOnMore(bs: seq<Backup>, n: nat, device: string, pruneAge: int)
    requires n < |bs|
    ensures var b, was := bs[n], TooOldOn(bs, n, device, pruneAge);
            TooOldOn(bs, n + 1, device, pruneAge)
            == if b.status == Complete && b.device == device && b.age > pruneAge then was + [b] else was
  {
    var on := CompleteOn(bs[..n], device);
    assert bs[..n + 1][..n] == bs[..n];
    if bs[n].status == Complete && bs[n].device == device {
      assert CompleteOn(bs[..n + 1], device) == on + [bs[n]];
      TooOldOfPrefix(on, bs[n], |on|, pruneAge);
    } else {
      assert CompleteOn(bs[..n + 1], device) == on;
    }
  }

  lemma {:induction false} CompleteCount(bs: seq<Backup>, n: nat, device: string)
    requires n <= |bs|
    ensures |CompleteOn(bs[..n], device)| == |CompletePlaces(bs, n, device)|
  {
    if n > 0 {
      CompleteCount(bs, n - 1, device);
      assert bs[..n][..n - 1] == bs[..n - 1];
      var was := CompletePlaces(bs, n - 1, device);
      assert CompletePlaces(bs, n, device)
          == if bs[n - 1].status == Complete && bs[n - 1].device == device then was + {n - 1} else was;
    } else {
      assert CompletePlaces(bs, 0, device) == {};
    }
  }

  lemma {:induction false} TooOldCount(bs: seq<Backup>, n: nat, device: string, pruneAge: int)
    requires n <= |bs|
    ensures |TooOldOn(bs, n, device, pruneAge)| == |TooOldPlaces(bs, n, device, pruneAge)|
  {
    if n > 0 {
      TooOldCount(bs, n - 1, device, pruneAge);
      TooOldOnMore(bs, n - 1, device, pruneAge);
      var b, was := bs[n - 1], TooOldPlaces(bs, n - 1, device, pruneAge);
      assert TooOldPlaces(bs, n, device, pruneAge)
          == if b.status == Complete && b.device == device && b.age > pruneAge then was + {n - 1} else was;
    } else {
      assert TooOldPlaces(bs, 0, device, pruneAge) == {};
    }
  }

  lemma {:induction false} TooOldOnGrows(bs: seq<Backup>, m: nat, n: nat, device: string, pruneAge: int)
    requires m <= n <= |bs|
    ensures TooOldOn(bs, m, device, pruneAge) <= TooOldOn(bs, n, device, pruneAge)
  {
    if m < n {
      TooOldOnGrows(bs, m, n - 1, device, pruneAge);
      TooOldOnMore(bs, n - 1, device, pruneAge);
    }
  }

  lemma AmongFirst(xs: seq<Backup>, j: nat, k: nat)
    requires NoRepeats(xs) && j < |xs| && k <= |xs|
    ensures xs[j] in xs[..k] <==> j < k
  {
    if j < k { assert xs[..k][j] == xs[j]; }
  }

  lemma ComesAfter(onDevice: seq<Backup>, before: seq<Backup>, b: Backup, pruneAge: int, minBackups: nat)
    requires NoRepeats(TooOld(onDevice, pruneAge)) && before + [b] <= TooOld(onDevice, pruneAge)
    ensures b in Pruned(onDevice, pruneAge, minBackups) <==> |before| < Spare(|onDevice|, minBackups)
  {
    var xs := TooOld(onDevice, pruneAge);
    assert xs[|before|] == (before + [b])[|before|] == b;
    AmongFirst(xs, |before|, Min(|xs|, Spare(|onDevice|, minBackups)));
  }

  lemma PrunedTooOld(onDevice: seq<Backup>, pruneAge: int, minBackups: nat)
    ensures forall b :: b in Pruned(onDevice, pruneAge, minBackups) ==> b.age > pruneAge
  {
    TooOldMembers(onDevice, |onDevice|, pruneAge);
  }

  /** A complete backup is pruned just if it is too old and there are so few too
      old ones before it on its device that the minimum is left. */
  lemma PrunedIff(bs: seq<Backup>, i: nat, pruneAge: int, minBackups: nat)
    requires NoRepeats(bs) && i < |bs| && bs[i].status == Complete
    ensures bs[i] in Pruned(CompleteOn(bs, bs[i].device), pruneAge, minBackups)
            <==> bs[i].age > pruneAge
                 && |TooOldPlaces(bs, i, bs[i].device, pruneAge)| + minBackups < |CompletePlaces(bs, |bs|, bs[i].device)|
  {
    var b, d := bs[i], bs[i].device;
    var on := CompleteOn(bs, d);
    assert bs[..|bs|] == bs;
    CompleteCount(bs, |bs|, d);
    TooOldCount(bs, i, d, pruneAge);
    if b.age > pruneAge {
      TooOldOnHas(bs, i, pruneAge);
      ComesAfter(on, TooOldOn(bs, i, d, pruneAge), b, pruneAge, minBackups);
    } else {
      PrunedTooOld(on, pruneAge, minBackups);
    }
  }

  /** The too old ones of a device up to one of them, and all of them. */
  lemma TooOldOnHas(bs: seq<Backup>, i: nat, pruneAge: int)
    requires NoRepeats(bs) && i < |bs| && bs[i].status == Complete && bs[i].age > pruneAge
    ensures NoRepeats(TooOld(CompleteOn(bs, bs[i].device), pruneAge))
    ensures TooOldOn(bs, i, bs[i].device, pruneAge) + [bs[i]] <= TooOld(CompleteOn(bs, bs[i].device), pruneAge)
  {
    var d := bs[i].device;
    assert bs[..|bs|] == bs;
    CompleteOnMembers(bs, d);
    TooOldMembers(CompleteOn(bs, d), |CompleteOn(bs, d)|, pruneAge);
    TooOldOnMore(bs, i, d, pruneAge);
    TooOldOnGrows(bs, i + 1, |bs|, d, pruneAge);
  }

  /** Of the places of the too old ones among the first `n`, those that have fewer
      than `most` of them before. */
  ghost function FirstTooOld(bs: seq<Backup>, n: nat, device: string, pruneAge: int, most: nat): set<nat>
    requires n <= |bs|
  {
    set j: nat | j < n && j in TooOldPlaces(bs, n, device, pruneAge) && |TooOldPlaces(bs, j, device, pruneAge)| < most
  }

  lemma TooOldPlacesMore(bs: seq<Backup>, n: nat, device: string, pruneAge: int)
    requires n < |bs|
    ensures var was := TooOldPlaces(bs, n, device, pruneAge);
            n !in was
            && TooOldPlaces(bs, n + 1, device, pruneAge)
               == if bs[n].status == Complete && bs[n].device == device && bs[n].age > pruneAge then was + {n} else was
  {
  }

  lemma FirstTooOldMore(bs: seq<Backup>, n: nat, device: string, pruneAge: int, most: nat)
    requires n < |bs|
    ensures var first, was := FirstTooOld(bs, n, device, pruneAge, most), TooOldPlaces(bs, n, device, pruneAge);
            n !in first && n !in was
            && if bs[n].status == Complete && bs[n].device == device && bs[n].age > pruneAge then
                 TooOldPlaces(bs, n + 1, device, pruneAge) == was + {n}
                 && FirstTooOld(bs, n + 1, device, pruneAge, most) == if |was| < most then first + {n} else first
               else
                 TooOldPlaces(bs, n + 1, device, pruneAge) == was && FirstTooOld(bs, n + 1, device, pruneAge, most) == first
  {
    TooOldPlacesMore(bs, n, device, pruneAge);
    forall j: nat | j in TooOldPlaces(bs, n, device, pruneAge) ensures j < n {}
  }

  lemma {:induction false} FirstTooOldCount(bs: seq<Backup>, n: nat, device: string, pruneAge: int, most: nat)
    requires n <= |bs|
    ensures |FirstTooOld(bs, n, device, pruneAge, most)| == Min(|TooOldPlaces(bs, n, device, pruneAge)|, most)
  {
    if n == 0 {
      assert FirstTooOld(bs, 0, device, pruneAge, most) == {} && TooOldPlaces(bs, 0, device, pruneAge) == {};
    } else {
      FirstTooOldCount(bs, n - 1, device, pruneAge, most);
      FirstTooOldMore(bs, n - 1, device, pruneAge, most);
    }
  }
}
