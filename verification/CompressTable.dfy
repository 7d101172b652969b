/** Table compression. A row of sets stands for every tuple that takes one
    value from each of its cells. */
module CompressTable {

  type Row<V> = seq<set<V>>

  ghost predicate Covers<V>(row: Row<V>, t: seq<V>) {
    |t| == |row| && forall i :: 0 <= i < |row| ==> t[i] in row[i]
  }

  ghost predicate StandsFor<V(!new)>(row: Row<V>, t: seq<V>) {
    forall u :: Covers(row, u) <==> u == t
  }

  /** The tuples a table stands for. */
  ghost predicate Denotes<V>(rows: seq<Row<V>>, t: seq<V>) {
    exists i :: 0 <= i < |rows| && Covers(rows[i], t)
  }

  ghost predicate SameMeaning<V(!new)>(a: seq<Row<V>>, b: seq<Row<V>>) {
    forall t :: Denotes(a, t) <==> Denotes(b, t)
  }

  /** The rows have the same width and differ in at most one column. */
  ghost predicate Mergeable<V>(a: Row<V>, b: Row<V>) {
    |a| == |b| && forall i, j :: 0 <= i < |a| && 0 <= j < |a| && a[i] != b[i] && a[j] != b[j] ==> i == j
  }

  ghost function Union<V>(a: Row<V>, b: Row<V>): Row<V>
    requires |a| == |b|
  {
    seq(|a|, i requires 0 <= i < |a| => a[i] + b[i])
  }

  /** Merging loses and adds no tuple: this is what mergeable is for. */
  lemma UnionCoversBoth<V>(a: Row<V>, b: Row<V>, t: seq<V>)
    requires Mergeable(a, b)
    ensures Covers(Union(a, b), t) <==> Covers(a, t) || Covers(b, t)
  {
    if Covers(Union(a, b), t) && !Covers(a, t) {
      var i :| 0 <= i < |a| && t[i] !in a[i];
      forall j | 0 <= j < |a| ensures t[j] in b[j] {
        assert t[j] in Union(a, b)[j];
        if a[j] != b[j] { assert j == i; }
      }
    }
  }

  /** If each row has a value that the other lacks, in different columns, merging
      adds a tuple. */
  lemma TwoColumnsAddTuple<V>(a: Row<V>, b: Row<V>, i: nat, j: nat, x: V, y: V) returns (t: seq<V>)
    requires |a| == |b| && i < |a| && j < |a| && i != j
    requires x in a[i] && x !in b[i] && y in b[j] && y !in a[j]
    requires NoEmptyCell(a)
    ensures Covers(Union(a, b), t) && !Covers(a, t) && !Covers(b, t)
  {
    t := seq(|a|, k requires 0 <= k < |a| => if k == i then x else if k == j then y else Any(a[k]));
    assert t[i] == x && t[j] == y;
  }

  ghost predicate NoEmptyCell<V>(row: Row<V>) {
    forall k :: 0 <= k < |row| ==> row[k] != {}
  }

  /** Every column of `a` is part of that of `b`. */
  ghost predicate Within<V>(a: Row<V>, b: Row<V>) {
    |a| == |b| && forall k :: 0 <= k < |a| ==> a[k] <= b[k]
  }

  ghost predicate UnionExact<V(!new)>(a: Row<V>, b: Row<V>)
    requires |a| == |b|
  {
    forall t :: Covers(Union(a, b), t) <==> Covers(a, t) || Covers(b, t)
  }

  lemma WithinUnion<V>(a: Row<V>, b: Row<V>)
    requires Within(a, b)
    ensures Union(a, b) == b && Union(b, a) == b
  {
    forall k | 0 <= k < |a| ensures Union(a, b)[k] == b[k] && Union(b, a)[k] == b[k] {
      assert a[k] <= b[k];
    }
  }

  lemma NotWithin<V>(a: Row<V>, b: Row<V>) returns (i: nat, x: V)
    requires |a| == |b| && !Within(a, b)
    ensures i < |a| && x in a[i] && x !in b[i]
  {
    i :| i < |a| && !(a[i] <= b[i]);
    x :| x in a[i] && x !in b[i];
  }

  lemma NotMergeableAdds<V>(a: Row<V>, b: Row<V>) returns (t: seq<V>)
    requires |a| == |b| && NoEmptyCell(a) && NoEmptyCell(b)
    requires !Mergeable(a, b) && !Within(a, b) && !Within(b, a)
    ensures Covers(Union(a, b), t) && !Covers(a, t) && !Covers(b, t)
  {
    var i, x := NotWithin(a, b);
    var j, y := NotWithin(b, a);
    if i != j {
      t := TwoColumnsAddTuple(a, b, i, j, x, y);
    } else {
      var k :| 0 <= k < |a| && k != i && a[k] != b[k];
      if z :| z in a[k] && z !in b[k] {
        t := TwoColumnsAddTuple(a, b, k, j, z, y);
      } else {
        var z :| z in b[k] && z !in a[k];
        t := TwoColumnsAddTuple(a, b, i, k, x, z);
      }
    }
  }

  /** A merged row stands for exactly the tuples of the two just if they are
      mergeable or one is within the other. `mergeable` tests the first only, so
      a row that is within its neighbour, in more than one column, is left. */
  lemma UnionExactIff<V(!new)>(a: Row<V>, b: Row<V>)
    requires |a| == |b| && NoEmptyCell(a) && NoEmptyCell(b)
    ensures UnionExact(a, b) <==> Mergeable(a, b) || Within(a, b) || Within(b, a)
  {
    if Mergeable(a, b) {
      forall t ensures Covers(Union(a, b), t) <==> Covers(a, t) || Covers(b, t) { UnionCoversBoth(a, b, t); }
    } else if Within(a, b) {
      WithinUnion(a, b);
    } else if Within(b, a) {
      WithinUnion(b, a);
    } else {
      var t := NotMergeableAdds(a, b);
    }
  }

  ghost function Any<V>(s: set<V>): V
    requires s != {}
  {
    var x :| x in s; x
  }

  /** `rows[i]` takes in `rows[i + 1]`, which is erased. */
  ghost function Merged<V>(rows: seq<Row<V>>, i: nat): seq<Row<V>>
    requires i + 1 < |rows| && |rows[i]| == |rows[i + 1]|
  {
    rows[..i] + [Union(rows[i], rows[i + 1])] + rows[i + 2..]
  }

  /** As in every table that rows are added to and that is then compressed. */
  ghost predicate NoEmptyCells<V>(rows: seq<Row<V>>) {
    forall i :: 0 <= i < |rows| ==> NoEmptyCell(rows[i])
  }

  lemma MergedMeansTheSame<V(!new)>(rows: seq<Row<V>>, i: nat)
    requires i + 1 < |rows| && Mergeable(rows[i], rows[i + 1])
    ensures SameMeaning(rows, Merged(rows, i))
  {
    var m := Merged(rows, i);
    forall t ensures Denotes(rows, t) <==> Denotes(m, t) {
      UnionCoversBoth(rows[i], rows[i + 1], t);
      if Denotes(rows, t) {
        var k :| 0 <= k < |rows| && Covers(rows[k], t);
        assert Covers(m[if k <= i then k else k - 1], t);
      }
      if Denotes(m, t) {
        var k :| 0 <= k < |m| && Covers(m[k], t);
        if k == i {
          assert Covers(rows[i], t) || Covers(rows[i + 1], t);
        } else {
          assert Covers(rows[if k < i then k else k + 1], t);
        }
      }
    }
  }

  /** Which rows one round merges: from row `i` on each takes in as many of the
      rows after it as it can, one at a time. */
  ghost function Passed<V>(rows: seq<Row<V>>, i: nat): (r: seq<Row<V>>)
    ensures |r| <= |rows| && (|r| == |rows| ==> r == rows)
    decreases 2 * |rows| - i
  {
    if i + 1 >= |rows| then rows
    else if Mergeable(rows[i], rows[i + 1]) then Passed(Merged(rows, i), i)
    else Passed(rows, i + 1)
  }

  /** Rounds until nothing changes. */
  ghost function Settled<V>(rows: seq<Row<V>>): seq<Row<V>>
    decreases |rows|
  {
    if Passed(rows, 0) == rows then rows else Settled(Passed(rows, 0))
  }

  class Table<V(==, !new)> {
    var rows: seq<Row<V>>

    constructor ()
      ensures rows == []
    {
      rows := [];
    }

    /** Add the row that stands for one tuple. */
    method PushBack(row: seq<V>)
      modifies this
      ensures |rows| == |old(rows)| + 1 && old(rows) <= rows
      ensures StandsFor(rows[|rows| - 1], row)
      ensures NoEmptyCells(old(rows)) ==> NoEmptyCells(rows)
    {
      var r: Row<V> := [];
      for i := 0 to |row|
        invariant |r| == i && forall k :: 0 <= k < i ==> r[k] == {row[k]}
      {
        r := r + [{row[i]}];
      }
      rows := rows + [r];
      forall t | Covers(r, t) ensures t == row {
        assert forall k :: 0 <= k < |t| ==> t[k] in r[k];
      }
    }

    static method IsMergeable(a: Row<V>, b: Row<V>) returns (mergeable: bool)
      ensures mergeable <==> Mergeable(a, b)
    {
      if |a| != |b| { return false; }
      var differences := 0;
      ghost var first := 0;
      for i := 0 to |a|
        invariant differences == 0 ==> forall k :: 0 <= k < i ==> a[k] == b[k]
        invariant differences > 0 ==> first < i && a[first] != b[first]
        invariant differences == 1 ==> forall k :: 0 <= k < i && k != first ==> a[k] == b[k]
        invariant differences > 1 ==> exists k :: first < k < i && a[k] != b[k]
      {
        if a[i] != b[i] {
          if differences == 0 { first := i; }
          differences := differences + 1;
        }
      }
      return differences <= 1;
    }

    static method Merge(a: Row<V>, b: Row<V>) returns (r: Row<V>)
      requires |a| == |b|
      ensures r == Union(a, b)
    {
      r := a;
      for i := 0 to |a|
        invariant |r| == |a|
        invariant forall k :: 0 <= k < |a| ==> r[k] == if k < i then a[k] + b[k] else a[k]
      {
        r := r[i := r[i] + b[i]];
      }
    }

    /** Compression changes no meaning, never adds a row, and stops only when no
        two neighbouring rows can be merged. */
    method Compress()
      modifies this
      ensures SameMeaning(old(rows), rows)
      ensures |rows| <= |old(rows)| && (old(rows) != [] ==> rows != [])
      ensures forall i :: 0 <= i < |rows| - 1 ==> !Mergeable(rows[i], rows[i + 1])
      ensures (forall i :: 0 <= i < |old(rows)| - 1 ==> !Mergeable(old(rows)[i], old(rows)[i + 1])) ==> rows == old(rows)
      ensures rows == Settled(old(rows))
      ensures NoEmptyCells(old(rows)) ==> NoEmptyCells(rows)
    {
      var changed := true;
      while changed
        invariant NoEmptyCells(old(rows)) ==> NoEmptyCells(rows)
        invariant Settled(old(rows)) == if changed then Settled(rows) else rows
        invariant SameMeaning(old(rows), rows)
        invariant |rows| <= |old(rows)| && (old(rows) != [] ==> rows != [])
        invariant !changed ==> forall i :: 0 <= i < |rows| - 1 ==> !Mergeable(rows[i], rows[i + 1])
        invariant (forall i :: 0 <= i < |old(rows)| - 1 ==> !Mergeable(old(rows)[i], old(rows)[i + 1])) ==> rows == old(rows)
        decreases |rows|, if changed then 1 else 0
      {
        changed := Pass();
      }
    }

    /** One round of the `do` loop. */
    method Pass() returns (changed: bool)
      modifies this
      ensures SameMeaning(old(rows), rows)
      ensures |rows| <= |old(rows)| && (old(rows) != [] ==> rows != [])
      ensures rows == Passed(old(rows), 0)
      ensures NoEmptyCells(old(rows)) ==> NoEmptyCells(rows)
      ensures changed ==> |rows| < |old(rows)|
      ensures !changed ==> rows == old(rows)
      ensures changed <==> exists i :: 0 <= i < |old(rows)| - 1 && Mergeable(old(rows)[i], old(rows)[i + 1])
    {
      changed := false;
      var i := 0;
      while i + 1 < |rows|
        invariant 0 <= i <= |rows|
        invariant Passed(old(rows), 0) == Passed(rows, i)
        invariant NoEmptyCells(old(rows)) ==> NoEmptyCells(rows)
        invariant SameMeaning(old(rows), rows)
        invariant |rows| <= |old(rows)| && (old(rows) != [] ==> rows != [])
        invariant !changed ==> rows == old(rows) && forall k :: 0 <= k < i && k + 1 < |rows| ==> !Mergeable(rows[k], rows[k + 1])
        invariant changed ==> |rows| < |old(rows)|
        invariant changed ==> exists k :: 0 <= k < |old(rows)| - 1 && Mergeable(old(rows)[k], old(rows)[k + 1])
        decreases 2 * |rows| - i
      {
        var mergeable := IsMergeable(rows[i], rows[i + 1]);
        if mergeable {
          MergedMeansTheSame(rows, i);
          ghost var was := rows;
          var merged := Merge(rows[i], rows[i + 1]);
          rows := rows[i := merged];
          rows := rows[..i + 1] + rows[i + 2..];
          assert rows == Merged(was, i);
          changed := true;
        } else {
          i := i + 1;
        }
      }
    }
  }

  /** Of three rows the outer two of which alone can be merged, none is; with the
      same rows in another order, two are. So what is left depends on the order. */
  lemma OrderMatters<V>(a: Row<V>, b: Row<V>, c: Row<V>)
    requires Mergeable(a, c) && !Mergeable(a, b) && !Mergeable(b, c)
    ensures Settled([a, b, c]) == [a, b, c]
    ensures |Settled([a, c, b])| <= 2
  {
    var rows, other := [a, b, c], [a, c, b];
    assert Passed(rows, 2) == rows;
    assert Passed(rows, 1) == rows;
    assert Passed(rows, 0) == rows;
    assert Mergeable(other[0], other[1]) && |Merged(other, 0)| == 2;
    assert |Passed(other, 0)| <= 2;
    SettledShrinks(other);
    SettledShrinks(Passed(other, 0));
  }

  lemma {:induction false} SettledShrinks<V>(rows: seq<Row<V>>)
    ensures |Settled(rows)| <= |rows|
    ensures Passed(rows, 0) != rows ==> Settled(rows) == Settled(Passed(rows, 0))
    decreases |rows|
  {
    if Passed(rows, 0) != rows { SettledShrinks(Passed(rows, 0)); }
  }
}
