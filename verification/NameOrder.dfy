/** The order on host, volume and device names that the configuration's maps
    are sorted by: digit runs compare as numbers and come before other
    characters, and names that agree in this sense as far as the shorter one
    goes are compared as plain strings. */
module NameOrder {
  import opened Folding
  import opened Strings

  // ----- Specification

  datatype Token = Number(value: nat) | Letter(code: int)

  predicate IsDigit(c: char) { '0' <= c <= '9' }

  /** A byte as a (signed) `char` converts to `int`. */
  function Code(c: char): int {
    if c as int < 128 then c as int else c as int - 256
  }

  /** How many digits a string starts with. */
  function Run(s: string): (n: nat)
    ensures n <= |s|
    ensures forall i :: 0 <= i < n ==> IsDigit(s[i])
    ensures n < |s| ==> !IsDigit(s[n])
  {
    if s != [] && IsDigit(s[0]) then 1 + Run(s[1..]) else 0
  }

  ghost predicate AllDigits(s: string) { forall i :: 0 <= i < |s| ==> IsDigit(s[i]) }

  ghost function Value(s: string): nat
    requires AllDigits(s)
  {
    if s == [] then 0 else
      Value(s[..|s| - 1]) * 10 + (s[|s| - 1] as int - '0' as int)
  }

  /** The length of the first token, and the token. */
  ghost function Width(s: string): nat
    requires s != []
  {
    if IsDigit(s[0]) then Run(s) else 1
  }

  ghost function Head(s: string): Token
    requires s != []
  {
    if IsDigit(s[0]) then Number(Value(s[..Run(s)])) else Letter(Code(s[0]))
  }

  ghost function Tokens(s: string): seq<Token>
    decreases |s|
  {
    if s == [] then [] else [Head(s)] + Tokens(s[Width(s)..])
  }

  ghost predicate TokenLess(t: Token, u: Token) {
    match (t, u)
    case (Number(m), Number(n)) => m < n
    case (Number(_), Letter(_)) => true
    case (Letter(_), Number(_)) => false
    case (Letter(x), Letter(y)) => x < y
  }

  /** The first difference decides; `tie` if there is none. */
  ghost predicate TokensLess(ts: seq<Token>, us: seq<Token>, tie: bool) {
    if ts == [] || us == [] then tie
    else if ts[0] == us[0] then TokensLess(ts[1..], us[1..], tie)
    else TokenLess(ts[0], us[0])
  }

  ghost predicate NameLess(a: string, b: string) {
    forall k {:trigger Unfold(k)} :: Unfold(k) ==> TokensLess(Tokens(a), Tokens(b), LexLess(a, b))
  }

  // ----- Digit runs

  ghost function Pow10(n: nat): nat { if n == 0 then 1 else 10 * Pow10(n - 1) }

  lemma {:induction false} ValueBounds(s: string)
    requires AllDigits(s)
    ensures Value(s) < Pow10(|s|)
    ensures s != [] && s[0] != '0' ==> Pow10(|s| - 1) <= Value(s)
  {
    if s != [] {
      var p := s[..|s| - 1];
      ValueBounds(p);
      assert IsDigit(s[|s| - 1]);
    }
  }

  lemma {:induction false} Pow10Grows(m: nat, n: nat)
    requires m <= n
    ensures Pow10(m) <= Pow10(n)
  {
    if m < n { Pow10Grows(m, n - 1); }
  }

  /** Without leading zeros the longer number is the greater. */
  lemma LongerIsGreater(x: string, y: string)
    requires AllDigits(x) && AllDigits(y) && |x| < |y| && y[0] != '0'
    ensures Value(x) < Value(y)
  {
    ValueBounds(x);
    ValueBounds(y);
    Pow10Grows(|x|, |y| - 1);
  }

  lemma {:induction false} LexLast(x: string, y: string)
    requires |x| == |y| > 0
    ensures var p, q := x[..|x| - 1], y[..|y| - 1];
            LexLess(x, y) <==> LexLess(p, q) || (p == q && x[|x| - 1] < y[|y| - 1])
  {
    var n := |x|;
    var p, q := x[..n - 1], y[..n - 1];
    if n > 1 {
      LexLast(x[1..], y[1..]);
      assert x[1..][..n - 2] == p[1..] && y[1..][..n - 2] == q[1..];
      assert x[1..][n - 2] == x[n - 1] && y[1..][n - 2] == y[n - 1];
      assert p == q <==> p[0] == q[0] && p[1..] == q[1..] by {
        assert p == [p[0]] + p[1..] && q == [q[0]] + q[1..];
      }
    }
  }

  /** Among digit strings of one length, string order is numeric order. */
  lemma {:induction false} SameLengthOrder(x: string, y: string)
    requires AllDigits(x) && AllDigits(y) && |x| == |y|
    ensures LexLess(x, y) <==> Value(x) < Value(y)
    ensures x == y <==> Value(x) == Value(y)
  {
    if x != [] {
      var n := |x|;
      var p, q := x[..n - 1], y[..n - 1];
      SameLengthOrder(p, q);
      LexLast(x, y);
      assert IsDigit(x[n - 1]) && IsDigit(y[n - 1]);
      assert x == p + [x[n - 1]] && y == q + [y[n - 1]];
    }
  }

  lemma {:induction false} LeadingZero(s: string)
    requires s != [] && AllDigits(s) && s[0] == '0'
    ensures AllDigits(s[1..]) && Value(s) == Value(s[1..])
  {
    if |s| > 1 {
      var p := s[..|s| - 1];
      LeadingZero(p);
      assert p[1..] == s[1..][..|s[1..]| - 1];
    }
  }

  lemma {:induction false} LeadingZeros(s: string, k: nat)
    requires AllDigits(s) && k <= |s| && forall i :: 0 <= i < k ==> s[i] == '0'
    ensures AllDigits(s[k..]) && Value(s) == Value(s[k..])
  {
    if k == 0 {
      assert s[k..] == s;
    } else {
      LeadingZero(s);
      LeadingZeros(s[1..], k - 1);
      assert s[1..][k - 1..] == s[k..];
    }
  }

  /** What the loop compares decides as the numbers do. `x` and `y` are runs
      stripped of leading zeros. */
  lemma StrippedOrder(x: string, y: string)
    requires AllDigits(x) && AllDigits(y)
    requires (x != [] ==> x[0] != '0') && (y != [] ==> y[0] != '0')
    ensures Value(x) < Value(y) <==> |x| < |y| || (|x| == |y| && LexLess(x, y))
    ensures Value(x) == Value(y) <==> x == y
  {
    if |x| < |y| {
      LongerIsGreater(x, y);
    } else if |y| < |x| {
      LongerIsGreater(y, x);
    } else {
      SameLengthOrder(x, y);
    }
  }

  // ----- The loop

  /** Skip zeros, then digits: the run and its value. */
  method ScanRun(s: string, start: nat) returns (first: nat, end: nat)
    requires start < |s| && IsDigit(s[start])
    ensures start <= first <= end <= |s| && start < end
    ensures end == start + Run(s[start..])
    ensures AllDigits(s[first..end]) && (first < end ==> s[first] != '0')
    ensures AllDigits(s[start..end]) && Value(s[start..end]) == Value(s[first..end])
  {
    first := start;
    while first < |s| && s[first] == '0'
      invariant start <= first <= |s|
      invariant forall i :: start <= i < first ==> s[i] == '0'
    {
      first := first + 1;
    }
    end := first;
    while end < |s| && IsDigit(s[end])
      invariant first <= end <= |s|
      invariant forall i :: first <= i < end ==> IsDigit(s[i])
    {
      end := end + 1;
    }
    RunEnds(s[start..], end - start);
    assert s[start..end][first - start..] == s[first..end];
    LeadingZeros(s[start..end], first - start);
  }

  lemma {:induction false} RunEnds(s: string, n: nat)
    requires n <= |s| && (forall i :: 0 <= i < n ==> IsDigit(s[i])) && (n < |s| ==> !IsDigit(s[n]))
    ensures Run(s) == n
  {
    if n > 0 { RunEnds(s[1..], n - 1); }
  }

  /** The first branch of the loop: both names go on with a digit. */
  method CompareRuns(a: string, apos: nat, b: string, bpos: nat) returns (order: int, aend: nat, bend: nat)
    requires apos < |a| && bpos < |b| && IsDigit(a[apos]) && IsDigit(b[bpos])
    ensures apos < aend <= |a| && bpos < bend <= |b|
    ensures var ts, us := Tokens(a[apos..]), Tokens(b[bpos..]);
            ts != [] && us != [] && ts[1..] == Tokens(a[aend..]) && us[1..] == Tokens(b[bend..])
            && (order < 0 <==> TokenLess(ts[0], us[0]))
            && (order == 0 <==> ts[0] == us[0])
  {
    var astart, bstart;
    astart, aend := ScanRun(a, apos);
    bstart, bend := ScanRun(b, bpos);
    StrippedOrder(a[astart..aend], b[bstart..bend]);
    assert a[apos..][..aend - apos] == a[apos..aend] && a[apos..][aend - apos..] == a[aend..];
    assert b[bpos..][..bend - bpos] == b[bpos..bend] && b[bpos..][bend - bpos..] == b[bend..];
    var alen, blen := aend - astart, bend - bstart;
    order := if alen < blen then -1
             else if alen > blen then 1
             else if LexLess(a[astart..aend], b[bstart..bend]) then -1
             else if a[astart..aend] != b[bstart..bend] then 1
             else 0;
  }

  /** One turn of the loop: the names from `apos` and `bpos` on differ in their
      first tokens, or go on from `aend` and `bend`. */
  method CompareTokens(a: string, apos: nat, b: string, bpos: nat) returns (order: int, aend: nat, bend: nat)
    requires apos < |a| && bpos < |b|
    ensures var ts, us := Tokens(a[apos..]), Tokens(b[bpos..]);
            ts != [] && us != []
            && (order < 0 <==> TokenLess(ts[0], us[0]))
            && (order == 0 <==> ts[0] == us[0])
            && (order == 0 ==> apos < aend <= |a| && bpos < bend <= |b|
                               && ts[1..] == Tokens(a[aend..]) && us[1..] == Tokens(b[bend..]))
  {
    var ach, bch := a[apos], b[bpos];
    aend, bend := apos + 1, bpos + 1;
    if IsDigit(ach) && IsDigit(bch) {
      order, aend, bend := CompareRuns(a, apos, b, bpos);
    } else if IsDigit(ach) {
      order := -1;
    } else if IsDigit(bch) {
      order := 1;
    } else {
      order := if Code(ach) < Code(bch) then -1 else if Code(ach) > Code(bch) then 1 else 0;
    }
  }

  /** `TokensLess` of what is left of the names is the answer; folded. */
  ghost predicate LeftToDecide(a: string, apos: nat, b: string, bpos: nat) {
    apos <= |a| && bpos <= |b|
    && forall k {:trigger Unfold(k)} :: Unfold(k) ==>
         (NameLess(a, b) <==> TokensLess(Tokens(a[apos..]), Tokens(b[bpos..]), LexLess(a, b)))
  }

  lemma TokensDecide(a: string, apos: nat, b: string, bpos: nat, order: int, aend: nat, bend: nat)
    requires apos < |a| && bpos < |b| && LeftToDecide(a, apos, b, bpos)
    requires var ts, us := Tokens(a[apos..]), Tokens(b[bpos..]);
             ts != [] && us != []
             && (order < 0 <==> TokenLess(ts[0], us[0]))
             && (order == 0 <==> ts[0] == us[0])
             && (order == 0 ==> aend <= |a| && bend <= |b| && ts[1..] == Tokens(a[aend..]) && us[1..] == Tokens(b[bend..]))
    ensures order == 0 ==> LeftToDecide(a, aend, b, bend)
    ensures order != 0 ==> (NameLess(a, b) <==> order < 0)
  {
    assert Unfold(0);
  }

  method NameLt(a: string, b: string) returns (less: bool)
    ensures less <==> NameLess(a, b)
  {
    var apos: nat, bpos: nat := 0, 0;
    assert a[0..] == a && b[0..] == b;
    while apos < |a| && bpos < |b|
      invariant LeftToDecide(a, apos, b, bpos)
      decreases |a| - apos
    {
      var order, aend, bend := CompareTokens(a, apos, b, bpos);
      TokensDecide(a, apos, b, bpos, order, aend, bend);
      if order < 0 { return true; }
      if order > 0 { return false; }
      apos, bpos := aend, bend;
    }
    NothingLeft(a, apos, b, bpos);
    return LexLess(a, b);
  }

  lemma NothingLeft(a: string, apos: nat, b: string, bpos: nat)
    requires LeftToDecide(a, apos, b, bpos) && (apos == |a| || bpos == |b|)
    ensures NameLess(a, b) <==> LexLess(a, b)
  {
    assert Unfold(0);
    assert apos == |a| ==> a[apos..] == [];
    assert bpos == |b| ==> b[bpos..] == [];
  }

  // ----- What the order has on all names

  lemma {:induction false} TokensTrichotomy(ts: seq<Token>, us: seq<Token>, tie: bool, eit: bool)
    requires tie != eit
    ensures TokensLess(ts, us, tie) != TokensLess(us, ts, eit)
  {
    if ts != [] && us != [] && ts[0] == us[0] {
      TokensTrichotomy(ts[1..], us[1..], tie, eit);
    }
  }

  lemma {:induction false} TokensSame(ts: seq<Token>, tie: bool)
    ensures TokensLess(ts, ts, tie) == tie
  {
    if ts != [] { TokensSame(ts[1..], tie); }
  }

  /** Of two different names exactly one is less; a name is not less than
      itself. */
  lemma Trichotomy(a: string, b: string)
    ensures !(NameLess(a, b) && NameLess(b, a))
    ensures a == b <==> !NameLess(a, b) && !NameLess(b, a)
  {
    assert Unfold(0);
    LexTrichotomy(a, b);
    if a == b {
      TokensSame(Tokens(a), false);
    } else {
      TokensTrichotomy(Tokens(a), Tokens(b), LexLess(a, b), LexLess(b, a));
    }
  }

  // ----- Where it is a total order

  /** No digit run of two or more digits starts with a zero. */
  ghost predicate Canonical(s: string)
    decreases |s|
  {
    s == [] || if IsDigit(s[0]) then (s[0] == '0' ==> Run(s) == 1) && Canonical(s[Run(s)..]) else Canonical(s[1..])
  }

  ghost predicate IsBytes(s: string) { forall c :: c in s ==> c as int < 256 }

  lemma CanonicalRunsEqual(x: string, y: string)
    requires AllDigits(x) && AllDigits(y) && x != [] && y != [] && Value(x) == Value(y)
    requires (|x| > 1 ==> x[0] != '0') && (|y| > 1 ==> y[0] != '0')
    ensures x == y
  {
    if |x| < |y| {
      LongerIsGreater(x, y);
    } else if |y| < |x| {
      LongerIsGreater(y, x);
    } else {
      SameLengthOrder(x, y);
    }
  }

  lemma SameHead(a: string, b: string)
    requires a != [] && b != [] && Canonical(a) && Canonical(b) && IsBytes(a) && IsBytes(b) && Head(a) == Head(b)
    ensures Width(a) == Width(b) && a[..Width(a)] == b[..Width(b)]
  {
    if IsDigit(a[0]) {
      CanonicalRunsEqual(a[..Width(a)], b[..Width(b)]);
    } else {
      assert a[0] in a && b[0] in b;
    }
  }

  lemma CanonicalTail(a: string)
    requires a != [] && Canonical(a) && IsBytes(a)
    ensures Canonical(a[Width(a)..]) && IsBytes(a[Width(a)..])
  {
    assert forall c :: c in a[Width(a)..] ==> c in a;
  }

  /** Canonical names whose tokens agree as far as the shorter list goes agree
      as strings as far as the shorter one goes. */
  lemma {:induction false} TokenPrefixIsPrefix(a: string, b: string)
    requires Canonical(a) && Canonical(b) && IsBytes(a) && IsBytes(b)
    requires Tokens(a) <= Tokens(b)
    ensures a <= b
    decreases |a|
  {
    if a != [] {
      var p, q := a[Width(a)..], b[Width(b)..];
      assert Tokens(a)[0] == Tokens(b)[0];
      assert Tokens(a)[1..] == Tokens(p) && Tokens(b)[1..] == Tokens(q);
      CanonicalTail(a);
      CanonicalTail(b);
      SameHead(a, b);
      TokenPrefixIsPrefix(p, q);
      SplitPrefix(a, b, Width(a));
    }
  }

  lemma SplitPrefix(a: string, b: string, n: nat)
    requires n <= |a| && n <= |b| && a[..n] == b[..n] && a[n..] <= b[n..]
    ensures a <= b
  {
    assert a == a[..n] + a[n..] && b == b[..n] + b[n..];
  }

  /** Token lists in dictionary order, a proper prefix first. */
  ghost predicate Precedes(ts: seq<Token>, us: seq<Token>) {
    if us == [] then false
    else if ts == [] then true
    else if ts[0] == us[0] then Precedes(ts[1..], us[1..])
    else TokenLess(ts[0], us[0])
  }

  lemma {:induction false} TokensLessUnlessPrefix(ts: seq<Token>, us: seq<Token>, tie: bool)
    ensures TokensLess(ts, us, tie) == if ts <= us || us <= ts then tie else Precedes(ts, us)
    ensures ts <= us ==> (Precedes(ts, us) <==> ts != us)
    ensures us <= ts ==> !Precedes(ts, us)
  {
    if ts != [] && us != [] {
      assert ts == [ts[0]] + ts[1..] && us == [us[0]] + us[1..];
      assert ts[0] == us[0] ==> (ts <= us <==> ts[1..] <= us[1..]) && (us <= ts <==> us[1..] <= ts[1..]);
      TokensLessUnlessPrefix(ts[1..], us[1..], tie);
    }
  }

  lemma {:induction false} PrefixIsLess(a: string, b: string)
    requires a <= b
    ensures LexLess(a, b) <==> a != b
    ensures !LexLess(b, a)
  {
    if a != [] {
      PrefixIsLess(a[1..], b[1..]);
      assert a == [a[0]] + a[1..] && b == [b[0]] + b[1..];
    }
  }

  /** On canonical names the function is the dictionary order of tokens. */
  lemma CanonicalOrder(a: string, b: string)
    requires Canonical(a) && Canonical(b) && IsBytes(a) && IsBytes(b)
    ensures NameLess(a, b) <==> Precedes(Tokens(a), Tokens(b))
  {
    assert Unfold(0);
    var ts, us := Tokens(a), Tokens(b);
    TokensLessUnlessPrefix(ts, us, LexLess(a, b));
    if ts <= us {
      TokenPrefixIsPrefix(a, b);
      PrefixIsLess(a, b);
      if ts == us {
        TokenPrefixIsPrefix(b, a);
      }
    } else if us <= ts {
      TokenPrefixIsPrefix(b, a);
      PrefixIsLess(b, a);
    }
  }

  lemma {:induction false} PrecedesTransitive(ts: seq<Token>, us: seq<Token>, vs: seq<Token>)
    requires Precedes(ts, us) && Precedes(us, vs)
    ensures Precedes(ts, vs)
  {
    if ts != [] && ts[0] == us[0] && us[0] == vs[0] {
      PrecedesTransitive(ts[1..], us[1..], vs[1..]);
    }
  }

  // ----- Where it is transitive

  /** One list begins with the other, so the names are compared as strings. */
  ghost predicate Alike(ts: seq<Token>, us: seq<Token>) { ts <= us || us <= ts }

  lemma AlikeByString(a: string, b: string)
    ensures NameLess(a, b) <==> if Alike(Tokens(a), Tokens(b)) then LexLess(a, b) else Precedes(Tokens(a), Tokens(b))
  {
    assert Unfold(0);
    TokensLessUnlessPrefix(Tokens(a), Tokens(b), LexLess(a, b));
  }

  lemma {:induction false} UnlikeOrder(ts: seq<Token>, us: seq<Token>)
    requires !Alike(ts, us)
    ensures Precedes(ts, us) <==> !Precedes(us, ts)
  {
    if ts[0] == us[0] {
      assert ts == [ts[0]] + ts[1..] && us == [us[0]] + us[1..];
      UnlikeOrder(ts[1..], us[1..]);
    }
  }

  /** What is unlike the beginning of a list is unlike the whole, and in the same
      order with it. */
  lemma {:induction false} UnlikeBeginning(ts: seq<Token>, us: seq<Token>, more: seq<Token>)
    requires !Alike(ts, us) && us <= more
    ensures !Alike(ts, more) && (Precedes(ts, more) <==> Precedes(ts, us)) && (Precedes(more, ts) <==> Precedes(us, ts))
  {
    assert ts[0] == us[0] ==> ts == [ts[0]] + ts[1..] && us == [us[0]] + us[1..];
    if ts[0] == us[0] {
      UnlikeBeginning(ts[1..], us[1..], more[1..]);
    }
  }

  /** A name whose tokens begin those of two others, and which lies between them
      as a string the other way round than their tokens do. */
  ghost predicate Twisted(x: string, y: string, z: string) {
    var ts, us, vs := Tokens(x), Tokens(y), Tokens(z);
    us <= ts && us <= vs && !Alike(ts, vs) && Precedes(ts, vs) && LexLess(z, y) && LexLess(y, x)
  }

  /** Three such names break the order: each is less than the next. */
  lemma TwistedCycle(x: string, y: string, z: string)
    requires Twisted(x, y, z)
    ensures NameLess(x, z) && NameLess(z, y) && NameLess(y, x)
  {
    AlikeByString(x, z);
    AlikeByString(z, y);
    AlikeByString(y, x);
  }

  ghost predicate SomeTwist(a: string, b: string, c: string) {
    Twisted(b, a, c) || Twisted(a, c, b) || Twisted(c, b, a)
  }

  lemma LexOrder(a: string, b: string)
    requires !LexLess(a, b) && a != b
    ensures LexLess(b, a)
  {
    LexTrichotomy(a, b);
  }

  lemma AlikeUnlike(a: string, b: string, c: string)
    requires NameLess(a, b) && NameLess(b, c) && !NameLess(a, c)
    requires Alike(Tokens(a), Tokens(b)) && !Alike(Tokens(b), Tokens(c))
    ensures Twisted(b, a, c)
  {
    var ts, us, vs := Tokens(a), Tokens(b), Tokens(c);
    AlikeByString(a, b);
    AlikeByString(b, c);
    AlikeByString(a, c);
    if us <= ts { UnlikeBeginning(vs, us, ts); }
    if !Alike(ts, vs) { UnlikeBeginning(vs, ts, us); }
    LexOrder(a, c);
  }

  lemma UnlikeAlike(a: string, b: string, c: string)
    requires NameLess(a, b) && NameLess(b, c) && !NameLess(a, c)
    requires !Alike(Tokens(a), Tokens(b)) && Alike(Tokens(b), Tokens(c))
    ensures Twisted(a, c, b)
  {
    var ts, us, vs := Tokens(a), Tokens(b), Tokens(c);
    AlikeByString(a, b);
    AlikeByString(b, c);
    AlikeByString(a, c);
    if us <= vs { UnlikeBeginning(ts, us, vs); }
    if !Alike(ts, vs) { UnlikeBeginning(ts, vs, us); }
    LexOrder(a, c);
  }

  lemma AlikeAlike(a: string, b: string, c: string)
    requires NameLess(a, b) && NameLess(b, c) && !NameLess(a, c)
    requires Alike(Tokens(a), Tokens(b)) && Alike(Tokens(b), Tokens(c))
    ensures Twisted(c, b, a)
  {
    AlikeByString(a, b);
    AlikeByString(b, c);
    AlikeByString(a, c);
    LexTransitive(a, b, c);
    UnlikeOrder(Tokens(a), Tokens(c));
  }

  lemma FailureTwists(a: string, b: string, c: string)
    requires NameLess(a, b) && NameLess(b, c) && !NameLess(a, c)
    ensures SomeTwist(a, b, c)
  {
    var ts, us, vs := Tokens(a), Tokens(b), Tokens(c);
    if Alike(ts, us) {
      if Alike(us, vs) { AlikeAlike(a, b, c); } else { AlikeUnlike(a, b, c); }
    } else if Alike(us, vs) {
      UnlikeAlike(a, b, c);
    } else {
      AlikeByString(a, b);
      AlikeByString(b, c);
      AlikeByString(a, c);
      PrecedesTransitive(ts, us, vs);
      if ts <= vs { UnlikeBeginning(us, ts, vs); UnlikeOrder(ts, us); UnlikeOrder(us, vs); }
      if vs <= ts { UnlikeBeginning(us, vs, ts); UnlikeOrder(ts, us); UnlikeOrder(us, vs); }
    }
  }

  ghost predicate TransitiveOn(names: iset<string>) {
    forall a, b, c :: a in names && b in names && c in names && NameLess(a, b) && NameLess(b, c) ==> NameLess(a, c)
  }

  ghost predicate TwistFree(names: iset<string>) {
    forall x, y, z :: x in names && y in names && z in names ==> !Twisted(x, y, z)
  }

  /** On any set of names the order is transitive, and so a strict total order,
      exactly if no three of them are twisted. */
  lemma TransitiveIff(names: iset<string>)
    ensures TransitiveOn(names) <==> TwistFree(names)
  {
    if TransitiveOn(names) {
      forall x, y, z | x in names && y in names && z in names ensures !Twisted(x, y, z) {
        if Twisted(x, y, z) {
          TwistedCycle(x, y, z);
          assert NameLess(z, x);
          Trichotomy(x, z);
        }
      }
    }
    if TwistFree(names) {
      forall a, b, c | a in names && b in names && c in names && NameLess(a, b) && NameLess(b, c) ensures NameLess(a, c) {
        if !NameLess(a, c) { FailureTwists(a, b, c); }
      }
    }
  }

  /** Canonical names are not twisted: where their tokens agree so do they. */
  lemma CanonicalTwistFree()
    ensures TwistFree(iset s | Canonical(s) && IsBytes(s))
  {
    forall x, y, z | Canonical(x) && IsBytes(x) && Canonical(y) && IsBytes(y) && Canonical(z) && IsBytes(z)
      ensures !Twisted(x, y, z)
    {
      if Tokens(y) <= Tokens(z) {
        TokenPrefixIsPrefix(y, z);
        PrefixIsLess(y, z);
      }
    }
  }

  /** … and so they are in a strict total order. */
  lemma CanonicalTransitive(a: string, b: string, c: string)
    requires Canonical(a) && Canonical(b) && Canonical(c) && IsBytes(a) && IsBytes(b) && IsBytes(c)
    requires NameLess(a, b) && NameLess(b, c)
    ensures NameLess(a, c)
  {
    var canonical := iset s | Canonical(s) && IsBytes(s);
    CanonicalTwistFree();
    TransitiveIff(canonical);
    assert a in canonical && b in canonical && c in canonical;
  }

  // ----- Where it is not

  lemma HeadAppend(p: string, s: string)
    requires p != []
    requires s != [] ==> !(IsDigit(p[|p| - 1]) && IsDigit(s[0]))
    ensures Width(p + s) == Width(p) && Head(p + s) == Head(p)
  {
    var n := Run(p);
    assert forall i :: 0 <= i < n ==> (p + s)[i] == p[i];
    assert n < |p| ==> (p + s)[n] == p[n];
    RunEnds(p + s, n);
    assert (p + s)[..n] == p[..n];
  }

  lemma FirstToken(s: string, h: Token, rest: string)
    requires s != [] && Head(s) == h && s[Width(s)..] == rest
    ensures Tokens(s) == [h] + Tokens(rest)
  {
  }

  lemma DropAppend(p: string, s: string, n: nat)
    requires n <= |p|
    ensures (p + s)[n..] == p[n..] + s
    ensures p[n..] != [] ==> p[n..][|p[n..]| - 1] == p[|p| - 1]
  {
  }

  lemma Regroup(h: Token, ts: seq<Token>, us: seq<Token>)
    ensures [h] + (ts + us) == [h] + ts + us
  {
  }

  lemma {:induction false} TokensAppend(p: string, s: string)
    requires p != [] && s != [] ==> !(IsDigit(p[|p| - 1]) && IsDigit(s[0]))
    ensures Tokens(p + s) == Tokens(p) + Tokens(s)
    decreases |p|
  {
    if p == [] {
      assert p + s == s;
    } else {
      var h, n := Head(p), Width(p);
      var q := p[n..];
      HeadAppend(p, s);
      DropAppend(p, s, n);
      FirstToken(p, h, q);
      FirstToken(p + s, h, q + s);
      TokensAppend(q, s);
      Regroup(h, Tokens(q), Tokens(s));
    }
  }

  lemma {:induction false} TokensLessCommon(p: seq<Token>, ts: seq<Token>, us: seq<Token>, tie: bool)
    ensures TokensLess(p + ts, p + us, tie) == TokensLess(ts, us, tie)
  {
    if p == [] {
      assert p + ts == ts && p + us == us;
    } else {
      assert (p + ts)[1..] == p[1..] + ts && (p + us)[1..] == p[1..] + us;
      TokensLessCommon(p[1..], ts, us, tie);
    }
  }

  lemma {:induction false} LexCommon(p: string, a: string, b: string)
    ensures LexLess(p + a, p + b) == LexLess(a, b)
  {
    if p == [] {
      assert p + a == a && p + b == b;
    } else {
      assert (p + a)[1..] == p[1..] + a && (p + b)[1..] == p[1..] + b;
      LexCommon(p[1..], a, b);
    }
  }

  lemma CommonPrefix(p: string, a: string, b: string)
    requires p != [] ==> !IsDigit(p[|p| - 1])
    ensures NameLess(p + a, p + b) <==> NameLess(a, b)
  {
    assert Unfold(0);
    TokensAppend(p, a);
    TokensAppend(p, b);
    TokensLessCommon(Tokens(p), Tokens(a), Tokens(b), LexLess(p + a, p + b));
    LexCommon(p, a, b);
  }

  lemma RunThen(z: string, c: char)
    requires z != [] && AllDigits(z) && !IsDigit(c)
    ensures Tokens(z) == [Number(Value(z))]
    ensures Tokens(z + [c]) == [Number(Value(z)), Letter(Code(c))]
  {
    RunEnds(z, |z|);
    RunEnds(z + [c], |z|);
    assert z[..|z|] == z && z[|z|..] == [];
    assert (z + [c])[..|z|] == z && (z + [c])[|z|..] == [c];
    assert Tokens([c]) == [Letter(Code(c))] + Tokens([c][1..]);
  }

  lemma LeadingZeroCore(n: string)
    requires n != [] && AllDigits(n) && n[0] != '0'
    ensures NameLess(n, n + ['a'])
    ensures NameLess(n + ['a'], ['0'] + n + ['x'])
    ensures NameLess(['0'] + n + ['x'], n)
  {
    assert Unfold(0);
    var z := ['0'] + n;
    LeadingZero(z);
    assert z[1..] == n;
    RunThen(n, 'a');
    RunThen(z, 'x');
    var v := Number(Value(n));
    var ta, tx := Letter(Code('a')), Letter(Code('x'));
    assert [v, ta][1..] == [ta] && [v, tx][1..] == [tx] && [v][1..] == [];
    PrefixIsLess(n, n + ['a']);
    assert TokensLess([v], [v, ta], true);
    assert TokensLess([v, ta], [v, tx], LexLess(n + ['a'], z + ['x']));
    assert LexLess(z + ['x'], n) by {
      assert (z + ['x'])[0] == '0' && IsDigit(n[0]);
    }
    assert TokensLess([v, tx], [v], true);
  }

  /** Wherever a name may have a number with a leading zero, three names break
      the order: each is less than the next and the last less than the first.
      `p` is what comes before the number, `n` the number without the zero. */
  lemma LeadingZeroCycle(p: string, n: string)
    requires p != [] ==> !IsDigit(p[|p| - 1])
    requires n != [] && AllDigits(n) && n[0] != '0'
    ensures NameLess(p + n, p + (n + ['a']))
    ensures NameLess(p + (n + ['a']), p + (['0'] + n + ['x']))
    ensures NameLess(p + (['0'] + n + ['x']), p + n)
  {
    LeadingZeroCore(n);
    CommonPrefix(p, n, n + ['a']);
    CommonPrefix(p, n + ['a'], ['0'] + n + ['x']);
    CommonPrefix(p, ['0'] + n + ['x'], n);
  }

  // ----- What decides

  ghost predicate EndsInDigit(s: string) { s != [] && IsDigit(s[|s| - 1]) }

  ghost predicate BeginsWithDigit(s: string) { s != [] && IsDigit(s[0]) }

  lemma NumberThen(x: string, s: string)
    requires x != [] && AllDigits(x) && !BeginsWithDigit(s)
    ensures Tokens(x + s) == [Number(Value(x))] + Tokens(s)
  {
    RunEnds(x + s, |x|);
    assert (x + s)[..|x|] == x && (x + s)[|x|..] == s;
    assert (x + s)[0] == x[0];
    FirstToken(x + s, Number(Value(x)), s);
  }

  lemma DecidedAfter(p: string, q: string, a: string, b: string)
    requires Tokens(p) == Tokens(q) && a != [] && b != []
    requires BeginsWithDigit(a) || BeginsWithDigit(b) ==> !EndsInDigit(p) && !EndsInDigit(q)
    requires Head(a) != Head(b)
    ensures NameLess(p + a, q + b) <==> TokenLess(Head(a), Head(b))
  {
    assert Unfold(0);
    TokensAppend(p, a);
    TokensAppend(q, b);
    TokensLessCommon(Tokens(p), Tokens(a), Tokens(b), LexLess(p + a, q + b));
  }

  /** Of two names that begin alike, or with the same but for leading zeros, and
      go on with numbers, the one with the smaller number comes first, whatever
      follows. */
  lemma SmallerNumberFirst(p: string, q: string, x: string, y: string, s: string, t: string)
    requires Tokens(p) == Tokens(q) && !EndsInDigit(p) && !EndsInDigit(q)
    requires x != [] && AllDigits(x) && y != [] && AllDigits(y)
    requires !BeginsWithDigit(s) && !BeginsWithDigit(t)
    requires Value(x) < Value(y)
    ensures NameLess(p + (x + s), q + (y + t)) && !NameLess(q + (y + t), p + (x + s))
  {
    NumberThen(x, s);
    NumberThen(y, t);
    assert Tokens(x + s)[0] == Head(x + s) && Tokens(y + t)[0] == Head(y + t);
    assert IsDigit((x + s)[0]) && IsDigit((y + t)[0]);
    DecidedAfter(p, q, x + s, y + t);
    Trichotomy(p + (x + s), q + (y + t));
  }

  /** A number comes before anything else. */
  lemma DigitFirst(p: string, q: string, a: string, b: string)
    requires Tokens(p) == Tokens(q) && !EndsInDigit(p) && !EndsInDigit(q)
    requires BeginsWithDigit(a) && b != [] && !BeginsWithDigit(b)
    ensures NameLess(p + a, q + b) && !NameLess(q + b, p + a)
  {
    DecidedAfter(p, q, a, b);
    Trichotomy(p + a, q + b);
  }

  /** Other characters come in the order of their codes, as signed bytes. */
  lemma SmallerCodeFirst(p: string, q: string, c: char, d: char, s: string, t: string)
    requires Tokens(p) == Tokens(q) && !IsDigit(c) && !IsDigit(d)
    requires (if c as int < 128 then c as int else c as int - 256) < (if d as int < 128 then d as int else d as int - 256)
    ensures NameLess(p + ([c] + s), q + ([d] + t)) && !NameLess(q + ([d] + t), p + ([c] + s))
  {
    DecidedAfter(p, q, [c] + s, [d] + t);
    Trichotomy(p + ([c] + s), q + ([d] + t));
  }

  /** And if all that one name has is in the other too, but for leading zeros,
      they come in the order of strings; a name that another one begins with, if
      no number of the other goes on where it ends, comes first. */
  lemma ShorterFirst(p: string, q: string, s: string)
    requires Tokens(p) == Tokens(q) && !(EndsInDigit(q) && BeginsWithDigit(s))
    ensures NameLess(p, q + s) <==> LexLess(p, q + s)
    ensures p == q && s != [] ==> NameLess(p, q + s)
  {
    TokensAppend(q, s);
    AlikeByString(p, q + s);
    PrefixIsLess(q, q + s);
  }
}
