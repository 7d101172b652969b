/** The `decay` pruning policy, for the complete backups of one volume on one
    device. */
module PruneDecay {
  import opened DecayBuckets
  import opened Folding

  /** `age` is today's date less the date of `time`, in days. */
  datatype Backup = Backup(id: string, time: int, age: int)

  /** The policy's parameters in days; `decay-window` is at least one day. */
  datatype Parameters = Parameters(start: nat, window: nat, scale: real, limit: nat) {
    ghost predicate Valid() { window >= 1 && scale > 1.0 }
  }

  datatype Reason = TooOld(age: int, limit: int) | NotOldest(age: int, start: int, bucket: nat)

  // ----- What the policy keeps

  /** Old enough to decay, not so old as to go at once. */
  ghost predicate Decays(p: Parameters, b: Backup) {
    p.start < b.age <= p.limit
  }

  ghost function BucketOf(p: Parameters, b: Backup): nat
    requires p.Valid() && Decays(p, b)
  {
    Bucket(p.window, p.scale, b.age - p.start)
  }

  ghost predicate OldestInBucket(all: set<Backup>, p: Parameters, b: Backup)
    requires p.Valid() && Decays(p, b)
  {
    forall c :: c in all && Decays(p, c) && BucketOf(p, c) == BucketOf(p, b) ==> b.time <= c.time
  }

  ghost predicate Kept(all: set<Backup>, p: Parameters, b: Backup)
    requires p.Valid()
  {
    all == {b}
    || b.age <= p.start
    || (b.age <= p.limit && OldestInBucket(all, p, b))
  }

  ghost function Survivors(all: set<Backup>, p: Parameters): set<Backup>
    requires p.Valid()
  {
    set b | b in all && Kept(all, p, b)
  }

  /** No two backups of a volume on a device have the same time: `backups` is a
      set ordered by time and device. */
  ghost predicate TimesDiffer(all: set<Backup>) {
    forall b, c :: b in all && c in all && b.time == c.time ==> b == c
  }

  ghost predicate NoRepeats(xs: seq<Backup>) {
    forall i, j :: 0 <= i < j < |xs| ==> xs[i] != xs[j]
  }

  ghost function Elements(xs: seq<Backup>): set<Backup> { set b | b in xs }

  // ----- prunable

  /** `prune` has those of `bs` that are past the start and the limit. */
  ghost predicate TooOldOnes(bs: set<Backup>, p: Parameters, prune: map<Backup, Reason>) {
    forall k {:trigger Unfold(k)} :: Unfold(k) ==>
      (forall b :: b in prune <==> b in bs && b.age > p.start && b.age > p.limit)
      && forall b :: b in prune ==> prune[b] == TooOld(b.age, p.limit)
  }

  /** One backup in the first loop. */
  method FindOne(prune: map<Backup, Reason>, oldest: map<nat, Backup>, backup: Backup, p: Parameters,
                 ghost seen: set<Backup>)
    returns (prune': map<Backup, Reason>, oldest': map<nat, Backup>)
    requires p.Valid() && TooOldOnes(seen, p, prune) && OldestSoFar(seen, p, oldest)
    ensures TooOldOnes(seen + {backup}, p, prune') && OldestSoFar(seen + {backup}, p, oldest')
  {
    prune', oldest' := prune, oldest;
    var age := backup.age;
    var a := age - p.start;
    if a <= 0 { return; }
    if age > p.limit {
      prune' := prune[backup := TooOld(age, p.limit)];
      return;
    }
    var bucket := Bucket(p.window, p.scale, a);
    if bucket !in oldest || backup.time < oldest[bucket].time {
      oldest' := oldest[bucket := backup];
    }
  }

  /** The first loop: what is too old, and the oldest backup of each bucket. */
  method FindOldest(onDevice: seq<Backup>, p: Parameters) returns (prune: map<Backup, Reason>, oldest: map<nat, Backup>)
    requires p.Valid()
    ensures TooOldOnes(Elements(onDevice), p, prune)
    ensures OldestSoFar(Elements(onDevice), p, oldest)
  {
    prune, oldest := map[], map[];
    ghost var seen: set<Backup> := {};
    for i := 0 to |onDevice|
      invariant seen == Elements(onDevice[..i])
      invariant TooOldOnes(seen, p, prune) && OldestSoFar(seen, p, oldest)
    {
      prune, oldest := FindOne(prune, oldest, onDevice[i], p, seen);
      seen := seen + {onDevice[i]};
    }
    assert onDevice[..|onDevice|] == onDevice;
  }

  /** The second loop: the rest of each bucket. */
  method PruneRest(onDevice: seq<Backup>, p: Parameters, oldest: map<nat, Backup>, tooOld: map<Backup, Reason>)
    returns (prune: map<Backup, Reason>)
    requires p.Valid() && TimesDiffer(Elements(onDevice)) && OldestSoFar(Elements(onDevice), p, oldest)
    requires forall b :: b in tooOld ==> b.age > p.limit
    ensures forall b :: b in prune <==> b in tooOld || (b in Elements(onDevice) && Decays(p, b) && !OldestInBucket(Elements(onDevice), p, b))
    ensures forall b :: b in prune ==> prune[b] == if b in tooOld then tooOld[b] else Why(p, b)
  {
    prune := tooOld;
    ghost var all := Elements(onDevice);
    ghost var seen: set<Backup> := {};
    for i := 0 to |onDevice|
      invariant seen == Elements(onDevice[..i]) && seen <= all
      invariant forall b :: b in prune <==> b in tooOld || (b in seen && Decays(p, b) && !OldestInBucket(all, p, b))
      invariant forall b :: b in prune ==> prune[b] == if b in tooOld then tooOld[b] else Why(p, b)
    {
      var backup := onDevice[i];
      seen := seen + {backup};
      var a := backup.age - p.start;
      if a <= 0 || backup.age > p.limit { continue; }
      var bucket := Bucket(p.window, p.scale, a);
      OldestIsTheOne(all, p, oldest, backup);
      if backup != oldest[bucket] {
        prune := prune[backup := NotOldest(backup.age, p.start, bucket)];
      }
    }
    assert onDevice[..|onDevice|] == onDevice;
  }

  ghost function Why(p: Parameters, b: Backup): Reason
    requires p.Valid()
  {
    if Decays(p, b) then NotOldest(b.age, p.start, BucketOf(p, b)) else TooOld(b.age, p.limit)
  }

  method Prunable(onDevice: seq<Backup>, p: Parameters) returns (prune: map<Backup, Reason>)
    requires onDevice != [] && NoRepeats(onDevice) && TimesDiffer(Elements(onDevice)) && p.Valid()
    ensures prune.Keys == Elements(onDevice) - Survivors(Elements(onDevice), p)
    ensures forall b :: b in prune ==> prune[b] == Why(p, b) && b.age > p.start
  {
    ghost var all := Elements(onDevice);
    if |onDevice| == 1 {
      assert all == {onDevice[0]};
      return map[];
    }
    assert onDevice[0] in all && onDevice[1] in all && onDevice[0] != onDevice[1];
    var tooOld, oldest := FindOldest(onDevice, p);
    assert (forall b :: b in tooOld <==> b in all && b.age > p.start && b.age > p.limit)
           && (forall b :: b in tooOld ==> tooOld[b] == TooOld(b.age, p.limit)) by { assert Unfold(0); }
    prune := PruneRest(onDevice, p, oldest, tooOld);
    forall b | b in all ensures b in prune.Keys <==> b !in Survivors(all, p) {
      assert all != {b};
    }
  }

  /** `oldest` has the oldest backup of each bucket among `bs`. */
  ghost predicate HasOldest(bs: set<Backup>, p: Parameters, oldest: map<nat, Backup>)
    requires p.Valid()
  {
    (forall k :: k in oldest ==> oldest[k] in bs && Decays(p, oldest[k]) && BucketOf(p, oldest[k]) == k)
    && forall b :: b in bs && Decays(p, b) ==>
                     BucketOf(p, b) in oldest && oldest[BucketOf(p, b)].time <= b.time
  }

  ghost predicate OldestSoFar(bs: set<Backup>, p: Parameters, oldest: map<nat, Backup>)
    requires p.Valid()
  {
    forall k {:trigger Unfold(k)} :: Unfold(k) ==> HasOldest(bs, p, oldest)
  }

  lemma OldestIsTheOne(bs: set<Backup>, p: Parameters, oldest: map<nat, Backup>, b: Backup)
    requires p.Valid() && TimesDiffer(bs) && OldestSoFar(bs, p, oldest) && b in bs && Decays(p, b)
    ensures BucketOf(p, b) in oldest
    ensures OldestInBucket(bs, p, b) <==> oldest[BucketOf(p, b)] == b
  {
    assert Unfold(0);
    var c := oldest[BucketOf(p, b)];
    assert c in bs && BucketOf(p, c) == BucketOf(p, b);
  }

  // ----- What a prune leaves

  /** Past the start of the decay and within the limit, and that long after the
      start that it falls in the `k`th window. */
  ghost predicate DecaysIn(p: Parameters, b: Backup, k: nat) {
    p.start < b.age <= p.limit && InWindow(p.window, p.scale, k, b.age - p.start)
  }

  /** What is kept: an only backup; what is not past the start; and in each of the
      windows the oldest of the backups that are within the limit. */
  lemma SurvivesIff(all: set<Backup>, p: Parameters, b: Backup)
    requires p.Valid() && b in all
    ensures b in Survivors(all, p) <==>
              all == {b} || b.age <= p.start
              || exists k: nat :: DecaysIn(p, b, k) && forall c :: c in all && DecaysIn(p, c, k) ==> b.time <= c.time
  {
    forall c, k: nat ensures DecaysIn(p, c, k) <==> Decays(p, c) && k == BucketOf(p, c) {
      if Decays(p, c) { BucketIsWindow(p.window, p.scale, c.age - p.start, k); }
    }
    if Decays(p, b) {
      assert DecaysIn(p, b, BucketOf(p, b));
      if OldestInBucket(all, p, b) {
        assert forall c :: c in all && DecaysIn(p, c, BucketOf(p, b)) ==> b.time <= c.time;
      }
    }
  }

  /** Pruning again on the same day removes nothing more. */
  lemma PruningAgainChangesNothing(all: set<Backup>, p: Parameters)
    requires p.Valid()
    ensures var rest := Survivors(all, p); Survivors(rest, p) == rest
  {
    var rest := Survivors(all, p);
    forall b | b in rest ensures Kept(rest, p, b) {
      if all == {b} { assert rest == {b}; }
    }
  }

  /** Everything goes exactly when there are two or more backups and all of them
      are past both the start of the decay and its limit. */
  lemma NothingSurvivesIff(all: set<Backup>, p: Parameters)
    requires p.Valid() && all != {} && TimesDiffer(all)
    ensures Survivors(all, p) == {} <==>
            |all| >= 2 && forall b :: b in all ==> b.age > p.start && b.age > p.limit
  {
    if b :| b in all && (b.age <= p.start || b.age <= p.limit) {
      if b.age <= p.start {
        assert b in Survivors(all, p);
      } else {
        var same := set d | d in all && Decays(p, d) && BucketOf(p, d) == BucketOf(p, b);
        assert b in same;
        var c := Earliest(same);
        assert c in all && OldestInBucket(all, p, c);
        assert c in Survivors(all, p);
      }
    } else if |all| < 2 {
      var b :| b in all;
      assert |all - {b}| == 0;
      assert all == {b};
      assert b in Survivors(all, p);
    }
  }

  lemma {:induction false} Earliest(bs: set<Backup>) returns (c: Backup)
    requires bs != {}
    ensures c in bs && forall d :: d in bs ==> c.time <= d.time
  {
    c :| c in bs;
    if bs != {c} {
      var d := Earliest(bs - {c});
      if d.time < c.time { c := d; }
    }
  }

  /** At most one backup survives in each bucket, so at most as many as there
      are buckets between the start of the decay and its limit. */
  lemma DecayingSurvivorsBounded(all: set<Backup>, p: Parameters)
    requires p.Valid() && TimesDiffer(all) && p.limit > p.start
    ensures |set b | b in Survivors(all, p) && Decays(p, b)| <= Bucket(p.window, p.scale, p.limit - p.start) + 1
  {
    var n := Bucket(p.window, p.scale, p.limit - p.start) + 1;
    var left := set b | b in Survivors(all, p) && Decays(p, b);
    forall b | b in left ensures BucketOf(p, b) < n {
      BucketMonotone(p.window, p.scale, b.age - p.start, p.limit - p.start);
    }
    forall b, c | b in left && c in left && BucketOf(p, b) == BucketOf(p, c) ensures b == c {
      assert b in all && c in all;
      if all == {b} || all == {c} {
      } else {
        assert OldestInBucket(all, p, b) && OldestInBucket(all, p, c);
      }
    }
    OnePerBucket(left, p, n);
  }

  lemma {:induction false} OnePerBucket(bs: set<Backup>, p: Parameters, n: nat)
    requires p.Valid()
    requires forall b :: b in bs ==> Decays(p, b) && BucketOf(p, b) < n
    requires forall b, c :: b in bs && c in bs && BucketOf(p, b) == BucketOf(p, c) ==> b == c
    ensures |bs| <= n
    decreases n
  {
    if n == 0 {
      assert bs == {};
    } else if b :| b in bs && BucketOf(p, b) == n - 1 {
      OnePerBucket(bs - {b}, p, n - 1);
    } else {
      OnePerBucket(bs, p, n - 1);
    }
  }
}
