/** Lexicographic order on strings: what `a < b` means for two `std::string`
    values (a proper prefix comes first), and the order in which a
    `std::map<std::string, …>` is traversed. */
module Strings {

  predicate LexLess(a: string, b: string) {
    if b == [] then false
    else if a == [] then true
    else a[0] < b[0] || (a[0] == b[0] && LexLess(a[1..], b[1..]))
  }

  lemma LexIrreflexive(a: string)
    ensures !LexLess(a, a)
  {
  }

  lemma LexTransitive(a: string, b: string, c: string)
    requires LexLess(a, b) && LexLess(b, c)
    ensures LexLess(a, c)
  {
  }

  lemma {:induction false} LexTrichotomy(a: string, b: string)
    ensures LexLess(a, b) || a == b || LexLess(b, a)
    ensures !(LexLess(a, b) && LexLess(b, a))
  {
    if a != [] && b != [] {
      LexTrichotomy(a[1..], b[1..]);
      if a[0] == b[0] && a[1..] == b[1..] {
        assert a == [a[0]] + a[1..] == b;
      }
    }
  }

  ghost predicate Ascending(names: seq<string>) {
    forall i, j :: 0 <= i < j < |names| ==> LexLess(names[i], names[j])
  }

  ghost function Members(names: seq<string>): set<string> { set n | n in names }

  lemma MembersAfter(names: seq<string>, i: nat)
    requires Ascending(names) && i < |names|
    ensures names[i] in Members(names[i..]) && Members(names[i + 1..]) == Members(names[i..]) - {names[i]}
  {
    assert names[i..] == [names[i]] + names[i + 1..];
    LexIrreflexive(names[i]);
  }

  /** The keys of a map, in the order a `std::map` is traversed. */
  method SortedKeys(names: set<string>) returns (keys: seq<string>)
    ensures Ascending(keys)
    ensures forall n :: n in keys <==> n in names
  {
    keys := [];
    var rest := names;
    while rest != {}
      invariant rest <= names
      invariant forall n :: n in keys <==> n in names - rest
      invariant Ascending(keys)
      invariant forall n, k :: n in keys && k in rest ==> LexLess(n, k)
      decreases |rest|
    {
      var least := Least(rest);
      keys := keys + [least];
      rest := rest - {least};
    }
  }

  method Least(names: set<string>) returns (least: string)
    requires names != {}
    ensures least in names
    ensures forall n :: n in names && n != least ==> LexLess(least, n)
  {
    least :| least in names;
    var rest := names - {least};
    while rest != {}
      invariant rest <= names
      invariant least in names && least !in rest
      invariant forall n :: n in names - rest && n != least ==> LexLess(least, n)
      decreases |rest|
    {
      var n :| n in rest;
      rest := rest - {n};
      LexTrichotomy(n, least);
      if LexLess(n, least) {
        forall k | k in names - rest && k != n
          ensures LexLess(n, k)
        {
          if k != least { LexTransitive(n, least, k); }
        }
        least := n;
      }
    }
  }
}
