/** The buckets of the decay policy, in exact arithmetic. */
module DecayBuckets {

  function Pow(s: real, n: nat): real {
    if n == 0 then 1.0 else s * Pow(s, n - 1)
  }

  /** Bernoulli's inequality. */
  lemma {:induction false} PowAtLeast(s: real, n: nat)
    requires s > 1.0
    ensures Pow(s, n) >= 1.0 + n as real * (s - 1.0)
    ensures Pow(s, n) >= 1.0
  {
    if n > 0 {
      PowAtLeast(s, n - 1);
      var t, x := s - 1.0, Pow(s, n - 1);
      assert s * x == x + t * x;
      assert n as real * t == (n - 1) as real * t + t;
    }
  }

  /** The least `n >= from` with `s^n >= x`: `ceil(log_s(x))` for `x > 1`. */
  function CeilLog(s: real, x: real, from: nat, limit: nat): (n: nat)
    requires s > 1.0 && from <= limit && Pow(s, limit) >= x
    requires from > 0 ==> Pow(s, from - 1) < x
    ensures Pow(s, n) >= x && (n > 0 ==> Pow(s, n - 1) < x)
    decreases limit - from
  {
    if Pow(s, from) >= x then from else CeilLog(s, x, from + 1, limit)
  }

  function Divided(n: real, v: real): (q: real)
    requires v > 0.0
    ensures v * q == n
  {
    n / v
  }

  /** The argument of the logarithm. */
  function Scaled(w: nat, s: real, a: nat): real
    requires w >= 1
  {
    ScaledBy(s - 1.0, a as real, w as real)
  }

  function ScaledBy(t: real, x: real, v: real): real
    requires v > 0.0
  {
    Divided(t * x, v) + 1.0
  }

  lemma ScaledBound(w: nat, s: real, a: nat)
    requires w >= 1 && s > 1.0
    ensures Pow(s, a) >= Scaled(w, s, a)
    ensures a >= 1 ==> Scaled(w, s, a) > 1.0
  {
    PowAtLeast(s, a);
    DivideLess((s - 1.0) * a as real, w as real);
  }

  lemma DivideLess(x: real, w: real)
    requires x >= 0.0 && w >= 1.0
    ensures 0.0 <= Divided(x, w) <= x
    ensures x > 0.0 ==> Divided(x, w) > 0.0
  {
    var q := Divided(x, w);
    if q > x {
    }
  }

  /** `prune_decay_bucket`. */
  function Bucket(w: nat, s: real, a: nat): nat
    requires w >= 1 && s > 1.0 && a >= 1
  {
    ScaledBound(w, s, a);
    CeilLog(s, Scaled(w, s, a), 0, a) - 1
  }

  // ----- What a bucket is

  /** Where bucket `k` begins: after `k` windows, the first `w` days long and
      each `s` times as long as the one before. */
  ghost function WindowStart(w: nat, s: real, k: nat): real {
    if k == 0 then 0.0 else WindowStart(w, s, k - 1) + w as real * Pow(s, k - 1)
  }

  ghost predicate InWindow(w: nat, s: real, k: nat, a: nat) {
    WindowStart(w, s, k) < a as real <= WindowStart(w, s, k + 1)
  }

  lemma {:induction false} WindowStartIs(w: nat, s: real, k: nat)
    ensures (s - 1.0) * WindowStart(w, s, k) == w as real * (Pow(s, k) - 1.0)
  {
    if k > 0 {
      WindowStartIs(w, s, k - 1);
      var p, v := Pow(s, k - 1), w as real;
      assert (s - 1.0) * (WindowStart(w, s, k - 1) + v * p) == (s - 1.0) * WindowStart(w, s, k - 1) + (s - 1.0) * (v * p);
      assert (s - 1.0) * (v * p) == v * (s * p) - v * p;
      assert v * (p - 1.0) == v * p - v;
      assert v * (s * p - 1.0) == v * (s * p) - v;
    }
  }

  lemma WindowFactors(w: nat, s: real, k: nat) returns (t: real, v: real, y: real, p: real)
    requires s > 1.0
    ensures t == s - 1.0 && v == w as real && y == WindowStart(w, s, k) && p == Pow(s, k) - 1.0
    ensures t > 0.0 && t * y == v * p
  {
    WindowStartIs(w, s, k);
    t, v, y, p := s - 1.0, w as real, WindowStart(w, s, k), Pow(s, k) - 1.0;
  }

  lemma CompareScaled(w: nat, s: real, a: nat, k: nat)
    requires w >= 1 && s > 1.0
    ensures Pow(s, k) < Scaled(w, s, a) <==> WindowStart(w, s, k) < a as real
  {
    var t, v, y, p := WindowFactors(w, s, k);
    CompareProducts(t, v, a as real, y, p);
    assert Scaled(w, s, a) == ScaledBy(t, a as real, v);
  }

  lemma CompareProducts(t: real, v: real, x: real, y: real, p: real)
    requires t > 0.0 && v > 0.0 && t * y == v * p
    ensures p + 1.0 < ScaledBy(t, x, v) <==> y < x
  {
    CrossMultiply(t, v, x, y, p, Divided(t * x, v));
  }

  lemma CrossMultiply(t: real, v: real, x: real, y: real, p: real, q: real)
    requires t > 0.0 && v > 0.0 && t * y == v * p && t * x == v * q
    ensures p < q <==> y < x
  {
  }

  /** An age falls in exactly one window, and that is its bucket. */
  lemma BucketIsWindow(w: nat, s: real, a: nat, k: nat)
    requires w >= 1 && s > 1.0 && a >= 1
    ensures k == Bucket(w, s, a) <==> InWindow(w, s, k, a)
  {
    ScaledBound(w, s, a);
    var n, b := CeilLog(s, Scaled(w, s, a), 0, a), Bucket(w, s, a);
    CompareScaled(w, s, a, b);
    CompareScaled(w, s, a, b + 1);
    if k < b {
      WindowsInOrder(w, s, k + 1, b);
    } else if b < k {
      WindowsInOrder(w, s, b + 1, k);
    }
  }

  lemma WindowIsPositive(w: nat, s: real, k: nat)
    requires s > 1.0
    ensures WindowStart(w, s, k) <= WindowStart(w, s, k + 1)
  {
    PowAtLeast(s, k);
  }

  lemma {:induction false} WindowsInOrder(w: nat, s: real, j: nat, k: nat)
    requires s > 1.0 && j <= k
    ensures WindowStart(w, s, j) <= WindowStart(w, s, k)
    decreases k
  {
    if j < k {
      WindowsInOrder(w, s, j, k - 1);
      WindowIsPositive(w, s, k - 1);
    }
  }

  /** The first window is `w` days long and each is `s` times as long as the one
      before it. */
  lemma WindowsGrow(w: nat, s: real, k: nat)
    ensures WindowStart(w, s, 0) == 0.0 && WindowStart(w, s, 1) == w as real
    ensures WindowStart(w, s, k + 2) - WindowStart(w, s, k + 1) == s * (WindowStart(w, s, k + 1) - WindowStart(w, s, k))
  {
    var v, p := w as real, Pow(s, k);
    assert Pow(s, k + 1) == s * p;
    assert WindowStart(w, s, k + 1) - WindowStart(w, s, k) == v * p;
    assert v * (s * p) == s * (v * p);
    assert Pow(s, 0) == 1.0;
  }

  /** Older backups are in the same or a later bucket. */
  lemma BucketMonotone(w: nat, s: real, a: nat, b: nat)
    requires w >= 1 && s > 1.0 && 1 <= a <= b
    ensures Bucket(w, s, a) <= Bucket(w, s, b)
  {
    var j, k := Bucket(w, s, a), Bucket(w, s, b);
    BucketIsWindow(w, s, a, j);
    BucketIsWindow(w, s, b, k);
    if k < j { WindowsInOrder(w, s, k + 1, j); }
  }
}
