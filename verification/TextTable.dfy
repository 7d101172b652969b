/** Tables: how cells are placed, and how a table is laid out as text. */
module TextTable {
  import opened Common
  import opened Folding

  /** A cell of `w` columns by `h` rows whose top left corner is at (x, y), and
      its contents as rendered. */
  datatype Cell = Cell(x: nat, y: nat, w: nat, h: nat, heading: bool, text: string)

  type CellMap = map<(nat, nat), Cell>

  predicate Covers(c: Cell, x: nat, y: nat) {
    c.x <= x < c.x + c.w && c.y <= y < c.y + c.h
  }

  /** `findOverlappingCell`. */
  function At(cells: CellMap, x: nat, y: nat): Option<Cell> {
    if (x, y) in cells then Some(cells[(x, y)]) else None
  }

  /** The cell has all of its rectangle. */
  ghost predicate Whole(cells: CellMap, c: Cell) {
    forall x: nat, y: nat {:trigger At(cells, x, y)} :: Covers(c, x, y) ==> At(cells, x, y) == Some(c)
  }

  ghost predicate Regular(cells: CellMap, width: nat, height: nat) {
    forall k {:trigger Unfold(k)} :: Unfold(k) ==>
      forall x: nat, y: nat {:trigger At(cells, x, y)} :: At(cells, x, y).Some? ==>
        WellPlaced(cells, width, height, x, y, At(cells, x, y).value)
  }

  ghost predicate WellPlaced(cells: CellMap, width: nat, height: nat, x: nat, y: nat, c: Cell) {
    Covers(c, x, y) && c.x + c.w <= width && c.y + c.h <= height && Whole(cells, c)
  }

  /** What a cell added on top of others leaves. */
  ghost predicate Overlaid(before: CellMap, c: Cell, after: CellMap) {
    forall x: nat, y: nat {:trigger At(after, x, y)} :: At(after, x, y) == if Covers(c, x, y) then Some(c) else At(before, x, y)
  }

  /** Adding a cell leaves the others whole just if it hides each of them wholly
      or not at all. */
  lemma OverlayRegular(before: CellMap, c: Cell, after: CellMap, width: nat, height: nat, width': nat, height': nat)
    requires Regular(before, width, height) && Overlaid(before, c, after)
    requires width' >= width && height' >= height && c.x + c.w <= width' && c.y + c.h <= height'
    ensures Regular(after, width', height') <==> HidesWholly(before, c)
  {
    assert Unfold(0);
    if HidesWholly(before, c) {
      forall x: nat, y: nat | At(after, x, y).Some? && !Covers(c, x, y)
        ensures Whole(after, At(after, x, y).value)
      {
        var d := At(before, x, y).value;
        forall x1: nat, y1: nat | Covers(d, x1, y1) ensures At(after, x1, y1) == Some(d) {
          assert At(before, x1, y1) == Some(d);
        }
      }
    } else {
      var x: nat, y: nat :| At(before, x, y).Some? && Covers(c, x, y) && !Hides(c, At(before, x, y).value);
      var d := At(before, x, y).value;
      var x1: nat, y1: nat :| Covers(d, x1, y1) && !Covers(c, x1, y1);
      assert At(before, x1, y1) == Some(d) == At(after, x1, y1);
      assert At(after, x, y) == Some(c);
      assert !Whole(after, d);
    }
  }

  ghost predicate HidesWholly(cells: CellMap, c: Cell) {
    forall x: nat, y: nat {:trigger At(cells, x, y)} ::
      At(cells, x, y).Some? && Covers(c, x, y) ==> Hides(c, At(cells, x, y).value)
  }

  /** No cell is outside the table. */
  ghost predicate Inside(cells: CellMap, width: nat) {
    forall x: nat, y: nat {:trigger At(cells, x, y)} :: At(cells, x, y).Some? ==> x < width
  }

  ghost predicate Hides(c: Cell, d: Cell) {
    forall x: nat, y: nat {:trigger Covers(c, x, y)} {:trigger Covers(d, x, y)} :: Covers(d, x, y) ==> Covers(c, x, y)
  }

  // ----- Widths

  function Sum(widths: seq<nat>, lo: nat, hi: nat): nat
    requires lo <= hi <= |widths|
  {
    if lo == hi then 0 else Sum(widths, lo, hi - 1) + widths[hi - 1]
  }

  lemma {:induction false} SumSplit(widths: seq<nat>, lo: nat, mid: nat, hi: nat)
    requires lo <= mid <= hi <= |widths|
    ensures Sum(widths, lo, hi) == Sum(widths, lo, mid) + Sum(widths, mid, hi)
  {
    if mid < hi { SumSplit(widths, lo, mid, hi - 1); }
  }

  lemma {:induction false} SumGrows(a: seq<nat>, b: seq<nat>, lo: nat, hi: nat)
    requires lo <= hi <= |a| == |b| && forall i :: lo <= i < hi ==> a[i] <= b[i]
    ensures Sum(a, lo, hi) <= Sum(b, lo, hi)
  {
    if lo < hi { SumGrows(a, b, lo, hi - 1); }
  }

  lemma {:induction false} SumSame(a: seq<nat>, b: seq<nat>, lo: nat, hi: nat)
    requires lo <= hi <= |a| && hi <= |b| && forall i :: lo <= i < hi ==> a[i] == b[i]
    ensures Sum(a, lo, hi) == Sum(b, lo, hi)
  {
    if lo < hi { SumSame(a, b, lo, hi - 1); }
  }

  /** The space a cell has: its columns and the separators between them. */
  ghost function Available(widths: seq<nat>, c: Cell): nat
    requires c.w >= 1 && c.x + c.w <= |widths|
  {
    3 * (c.w - 1) + Sum(widths, c.x, c.x + c.w)
  }

  /** What a cell of one column needs of it. */
  function Single(cells: CellMap, x: nat, y: nat): nat {
    var c := At(cells, x, y);
    if c.Some? && c.value.w == 1 then |c.value.text| else 0
  }

  /** What a cell of several needs of its first column, the others being as wide
      as their cells of one column need. */
  ghost function Multiple(cells: CellMap, singles: seq<nat>, x: nat, y: nat): int {
    var c := At(cells, x, y);
    if c.Some? && c.value.w > 1 && c.value.x == x && x + c.value.w <= |singles|
      then |c.value.text| - 3 * (c.value.w - 1) - Sum(singles, x + 1, x + c.value.w) else 0
  }

  ghost predicate IsSingleWidth(cells: CellMap, height: nat, x: nat, v: nat) {
    (forall y: nat {:trigger Single(cells, x, y)} :: y < height ==> Single(cells, x, y) <= v)
    && (v == 0 || exists y: nat {:trigger Single(cells, x, y)} :: y < height && Single(cells, x, y) == v)
  }

  /** The least width that suits all the cells that start in the column. */
  ghost predicate IsWidth(cells: CellMap, height: nat, singles: seq<nat>, x: nat, v: nat)
    requires x < |singles|
  {
    singles[x] <= v
    && (forall y: nat {:trigger Multiple(cells, singles, x, y)} :: y < height ==> Multiple(cells, singles, x, y) <= v)
    && (v == singles[x] || exists y: nat {:trigger Multiple(cells, singles, x, y)} :: y < height && Multiple(cells, singles, x, y) == v)
  }

  ghost predicate AreWidths(cells: CellMap, width: nat, height: nat, singles: seq<nat>, widths: seq<nat>) {
    |singles| == |widths| == width
    && forall k {:trigger Unfold(k)} :: Unfold(k) ==>
         (forall x :: 0 <= x < width ==> IsSingleWidth(cells, height, x, singles[x]))
         && (forall x :: 0 <= x < width ==> IsWidth(cells, height, singles, x, widths[x]))
  }

  ghost predicate LeastWidths(cells: CellMap, width: nat, height: nat, widths: seq<nat>) {
    exists singles :: AreWidths(cells, width, height, singles, widths)
  }

  lemma WholeFromRoot(cells: CellMap, width: nat, height: nat, x: nat, y: nat)
    requires Regular(cells, width, height) && At(cells, x, y).Some?
    ensures var c := At(cells, x, y).value;
            At(cells, c.x, c.y) == Some(c) && c.w >= 1 && c.x + c.w <= width && c.y < height
  {
    assert Unfold(0);
    var c := At(cells, x, y).value;
    assert Covers(c, x, y) && Covers(c, c.x, c.y);
  }

  lemma RoomEnough(singles: seq<nat>, widths: seq<nat>, x: nat, w: nat, need: int)
    requires w > 1 && x + w <= |singles| == |widths|
    requires forall i :: 0 <= i < |singles| ==> singles[i] <= widths[i]
    requires need - 3 * (w - 1) - Sum(singles, x + 1, x + w) <= widths[x]
    ensures need <= 3 * (w - 1) + Sum(widths, x, x + w)
  {
    SumGrows(singles, widths, x + 1, x + w);
    SumSplit(widths, x, x + 1, x + w);
    assert Sum(widths, x, x + 1) == Sum(widths, x, x) + widths[x];
  }

  lemma FitsAtRoot(cells: CellMap, height: nat, singles: seq<nat>, widths: seq<nat>, c: Cell)
    requires At(cells, c.x, c.y) == Some(c) && c.y < height && c.w >= 1 && c.x + c.w <= |singles| == |widths|
    requires IsSingleWidth(cells, height, c.x, singles[c.x]) && IsWidth(cells, height, singles, c.x, widths[c.x])
    requires forall i :: 0 <= i < |singles| ==> singles[i] <= widths[i]
    ensures |c.text| <= Available(widths, c)
  {
    if c.w == 1 {
      assert Single(cells, c.x, c.y) <= singles[c.x];
      assert Sum(widths, c.x, c.x + 1) == Sum(widths, c.x, c.x) + widths[c.x];
    } else {
      assert Multiple(cells, singles, c.x, c.y) <= widths[c.x];
      RoomEnough(singles, widths, c.x, c.w, |c.text|);
    }
  }

  /** Every cell fits in its space. */
  lemma EverythingFits(cells: CellMap, width: nat, height: nat, widths: seq<nat>, x: nat, y: nat)
    requires Regular(cells, width, height) && LeastWidths(cells, width, height, widths)
    requires At(cells, x, y).Some?
    ensures var c := At(cells, x, y).value; c.w >= 1 && c.x + c.w <= width && |c.text| <= Available(widths, c)
  {
    WholeFromRoot(cells, width, height, x, y);
    assert Unfold(0);
    var singles :| AreWidths(cells, width, height, singles, widths);
    forall i | 0 <= i < width ensures singles[i] <= widths[i] { assert IsWidth(cells, height, singles, i, widths[i]); }
    FitsAtRoot(cells, height, singles, widths, At(cells, x, y).value);
  }

  /** Columns of width `u` have room for the cells of one column … */
  ghost predicate SinglesFit(cells: CellMap, height: nat, x: nat, u: nat) {
    forall y: nat {:trigger At(cells, x, y)} :: y < height && At(cells, x, y).Some? && At(cells, x, y).value.w == 1 ==>
      |At(cells, x, y).value.text| <= u
  }

  /** … and for the wider ones that start here, if the other columns have what
      their cells of one column need. */
  ghost predicate SpannersFit(cells: CellMap, height: nat, singles: seq<nat>, x: nat, u: nat)
    requires x < |singles|
  {
    forall y: nat {:trigger At(cells, x, y)} :: y < height && At(cells, x, y).Some? ==>
      var c := At(cells, x, y).value;
      c.x == x && c.w > 1 && x + c.w <= |singles| ==> |c.text| <= 3 * (c.w - 1) + u + Sum(singles, x + 1, x + c.w)
  }

  lemma SingleLeast(cells: CellMap, height: nat, x: nat, v: nat, u: nat)
    requires IsSingleWidth(cells, height, x, v)
    ensures v <= u <==> SinglesFit(cells, height, x, u)
  {
    if v <= u {
      forall y: nat | y < height && At(cells, x, y).Some? && At(cells, x, y).value.w == 1
        ensures |At(cells, x, y).value.text| <= u
      {
        assert Single(cells, x, y) <= v;
      }
    } else {
      var y: nat :| y < height && Single(cells, x, y) == v;
      assert At(cells, x, y).Some?;
    }
  }

  lemma WidthLeast(cells: CellMap, height: nat, singles: seq<nat>, x: nat, v: nat, u: nat)
    requires x < |singles| && IsWidth(cells, height, singles, x, v)
    ensures v <= u <==> singles[x] <= u && SpannersFit(cells, height, singles, x, u)
  {
    if v <= u {
      forall y: nat | y < height && At(cells, x, y).Some?
        ensures var c := At(cells, x, y).value;
                c.x == x && c.w > 1 && x + c.w <= |singles| ==> |c.text| <= 3 * (c.w - 1) + u + Sum(singles, x + 1, x + c.w)
      {
        assert Multiple(cells, singles, x, y) <= v;
      }
    } else if v != singles[x] {
      var y: nat :| y < height && Multiple(cells, singles, x, y) == v;
      assert At(cells, x, y).Some?;
    }
  }

  /** The widths that a table is laid out with are the least: a column of width
      `u` has room for what is in it just if `u` is no less than its own. */
  lemma WidthsAreLeast(cells: CellMap, width: nat, height: nat, widths: seq<nat>) returns (singles: seq<nat>)
    requires LeastWidths(cells, width, height, widths)
    ensures |singles| == |widths| == width
    ensures forall x: nat, u: nat {:trigger SinglesFit(cells, height, x, u)} :: x < width ==>
              (singles[x] <= u <==> SinglesFit(cells, height, x, u))
    ensures forall x: nat, u: nat {:trigger SpannersFit(cells, height, singles, x, u)} :: x < width ==>
              (widths[x] <= u <==> singles[x] <= u && SpannersFit(cells, height, singles, x, u))
  {
    assert Unfold(0);
    singles :| AreWidths(cells, width, height, singles, widths);
    forall x: nat, u: nat | x < width
      ensures singles[x] <= u <==> SinglesFit(cells, height, x, u)
      ensures widths[x] <= u <==> singles[x] <= u && SpannersFit(cells, height, singles, x, u)
    {
      assert IsSingleWidth(cells, height, x, singles[x]) && IsWidth(cells, height, singles, x, widths[x]);
      SingleLeast(cells, height, x, singles[x], u);
      WidthLeast(cells, height, singles, x, widths[x], u);
    }
  }

  /** There is only one answer. */
  lemma WidthsUnique(cells: CellMap, width: nat, height: nat, widths: seq<nat>, widths': seq<nat>)
    requires LeastWidths(cells, width, height, widths) && LeastWidths(cells, width, height, widths')
    ensures widths == widths'
  {
    assert Unfold(0);
    var singles :| AreWidths(cells, width, height, singles, widths);
    var singles' :| AreWidths(cells, width, height, singles', widths');
    forall x | 0 <= x < width ensures singles[x] == singles'[x] {
      assert IsSingleWidth(cells, height, x, singles[x]) && IsSingleWidth(cells, height, x, singles'[x]);
    }
    assert singles == singles';
    forall x | 0 <= x < width ensures widths[x] == widths'[x] {
      assert IsWidth(cells, height, singles, x, widths[x]) && IsWidth(cells, height, singles, x, widths'[x]);
    }
  }

  // ----- Layout

  function Spaces(n: nat): (s: string)
    ensures |s| == n && '\n' !in s
  {
    if n == 0 then "" else Spaces(n - 1) + " "
  }

  /** Where the text of column `x` begins, with the bar before it. */
  function Start(widths: seq<nat>, x: nat): nat
    requires x <= |widths|
  {
    Sum(widths, 0, x) + 3 * x
  }

  /** `field` is set in the row at column `x`, after a bar and a space. */
  ghost predicate Shows(row: string, widths: seq<nat>, x: nat, field: string)
    requires x <= |widths|
  {
    var at := Start(widths, x);
    at + 2 + |field| <= |row| && row[at] == '|' && row[at + 1] == ' ' && row[at + 2..at + 2 + |field|] == field
    && (x > 0 ==> row[at - 1] == ' ')
  }

  /** The text of a cell, with spaces after it, and before it too in a heading. */
  ghost function Field(widths: seq<nat>, c: Cell): string
    requires c.w >= 1 && c.x + c.w <= |widths| && |c.text| <= Available(widths, c)
  {
    var left := Available(widths, c) - |c.text|;
    if c.heading then Spaces(left / 2) + c.text + Spaces(left - left / 2) else c.text + Spaces(left)
  }

  lemma {:induction false} AllSpaces(n: nat)
    ensures forall i :: 0 <= i < n ==> Spaces(n)[i] == ' '
  {
    if n > 0 { AllSpaces(n - 1); }
  }

  /** A field is as wide as its cell and has nothing but spaces beside the text,
      in a heading as many before it as after it, or one less. */
  lemma FieldShows(widths: seq<nat>, c: Cell) returns (left: nat)
    requires c.w >= 1 && c.x + c.w <= |widths| && |c.text| <= Available(widths, c)
    ensures var f, room := Field(widths, c), Available(widths, c) - |c.text|;
            |f| == Available(widths, c) && left <= room && f[left..left + |c.text|] == c.text
            && (forall i :: 0 <= i < |f| && !(left <= i < left + |c.text|) ==> f[i] == ' ')
            && if c.heading then left <= room - left <= left + 1 else left == 0
  {
    var room := Available(widths, c) - |c.text|;
    left := if c.heading then room / 2 else 0;
    var f := Field(widths, c);
    AllSpaces(left);
    AllSpaces(room - left);
    assert f == Spaces(left) + c.text + Spaces(room - left);
  }

  ghost predicate OneLine(cells: CellMap) {
    forall p :: p in cells ==> '\n' !in cells[p].text
  }

  /** What a row is at column `x`: nothing of its own inside a cell that starts
      on this row, and blank where there is no cell or a cell of an earlier row. */
  ghost predicate ColumnRight(row: string, cells: CellMap, widths: seq<nat>, x: nat, y: nat)
    requires x < |widths|
  {
    forall k {:trigger Unfold(k)} :: Unfold(k) ==>
      var c := At(cells, x, y);
      if c.Some? && c.value.y == y then
        c.value.x == x ==>
          c.value.w >= 1 && x + c.value.w <= |widths| && |c.value.text| <= Available(widths, c.value)
          && Shows(row, widths, x, Field(widths, c.value))
      else
        Shows(row, widths, x, Spaces(widths[x]))
  }

  /** Each column, the bar and spaces that go with it, and the last bar. */
  ghost function RowLength(widths: seq<nat>): nat {
    if widths == [] then 1 else Start(widths, |widths|)
  }

  /** The column after the part of the row that is laid out. */
  ghost function Frontier(cells: CellMap, width: nat, x: nat, y: nat): nat {
    if x < width && At(cells, x, y).Some? && At(cells, x, y).value.y == y && At(cells, x, y).value.x < x
      then At(cells, x, y).value.x + At(cells, x, y).value.w else x
  }

  ghost function LengthTo(widths: seq<nat>, x: nat): nat
    requires x <= |widths|
  {
    if x == 0 then 0 else Start(widths, x) - 1
  }

  lemma FrontierMoves(cells: CellMap, width: nat, height: nat, x: nat, y: nat)
    requires Regular(cells, width, height) && x < width
    ensures var c, next := At(cells, x, y), Frontier(cells, width, x + 1, y);
            if c.Some? && c.value.y == y then
              c.value.x <= x && next == c.value.x + c.value.w <= width
              && Frontier(cells, width, x, y) == if c.value.x == x then x else next
            else
              next == x + 1 && Frontier(cells, width, x, y) == x
  {
    assert Unfold(0);
    var c, d := At(cells, x, y), At(cells, x + 1, y);
    if c.Some? && Covers(c.value, x + 1, y) { assert d == c; }
    if d.Some? && Covers(d.value, x, y) { assert d == c; }
  }

  lemma Appended(widths: seq<nat>, row: string, x: nat, field: string, row': string, upTo: nat)
    requires x < upTo <= |widths| && |row| == LengthTo(widths, x)
    requires row' == row + (if x > 0 then " | " else "| ") + field
    requires |field| == 3 * (upTo - x - 1) + Sum(widths, x, upTo)
    ensures Shows(row', widths, x, field) && |row'| == LengthTo(widths, upTo) && row <= row'
  {
    SumSplit(widths, 0, x, upTo);
    var at := Start(widths, x);
    assert row'[at + 2..at + 2 + |field|] == field;
  }

  lemma StillShows(row: string, row': string, widths: seq<nat>, x: nat, field: string)
    requires x <= |widths| && Shows(row, widths, x, field) && row <= row'
    ensures Shows(row', widths, x, field)
  {
    var at := Start(widths, x);
    assert row'[at + 2..at + 2 + |field|] == row[at + 2..at + 2 + |field|];
  }

  lemma StillRight(row: string, row': string, cells: CellMap, widths: seq<nat>, x: nat, y: nat)
    requires x < |widths| && ColumnRight(row, cells, widths, x, y) && row <= row'
    ensures ColumnRight(row', cells, widths, x, y)
  {
    assert Unfold(0);
    var c := At(cells, x, y);
    if c.Some? && c.value.y == y {
      if c.value.x == x { StillShows(row, row', widths, x, Field(widths, c.value)); }
    } else {
      StillShows(row, row', widths, x, Spaces(widths[x]));
    }
  }

  class Table {
    var cells: CellMap
    var width: nat
    var height: nat
    var x: nat
    var y: nat

    ghost predicate InTable()
      reads this
    {
      Inside(cells, width)
    }

    /** No cell has been hidden in part. */
    ghost predicate Valid()
      reads this
    {
      Regular(cells, width, height)
    }

    constructor ()
      ensures Valid() && InTable() && cells == map[]
    {
      cells, width, height, x, y := map[], 0, 0, 0, 0;
    }

    /** Set a cell at its place. */
    method SetCell(c: Cell)
      requires InTable()
      modifies this`cells, this`width, this`height
      ensures InTable() && Overlaid(old(cells), c, cells)
      ensures width == (if c.x + c.w > old(width) then c.x + c.w else old(width))
      ensures height == (if c.y + c.h > old(height) then c.y + c.h else old(height))
      ensures old(Valid()) ==> (Valid() <==> HidesWholly(old(cells), c))
    {
      for i := c.x to c.x + c.w
        invariant width == old(width) && height == old(height)
        invariant forall x1: nat, y1: nat {:trigger At(cells, x1, y1)} ::
                    At(cells, x1, y1) == if Covers(c, x1, y1) && x1 < i then Some(c) else At(old(cells), x1, y1)
      {
        for j := c.y to c.y + c.h
          invariant width == old(width) && height == old(height)
          invariant forall x1: nat, y1: nat {:trigger At(cells, x1, y1)} ::
                      At(cells, x1, y1) == if Covers(c, x1, y1) && (x1 < i || (x1 == i && y1 < j)) then Some(c)
                                           else At(old(cells), x1, y1)
        {
          ghost var before := cells;
          cells := cells[(i, j) := c];
          assert forall x1: nat, y1: nat {:trigger At(cells, x1, y1)} ::
              At(cells, x1, y1) == if x1 == i && y1 == j then Some(c) else At(before, x1, y1);
        }
      }
      width := if width < c.x + c.w then c.x + c.w else width;
      height := if height < c.y + c.h then c.y + c.h else height;
      if old(Valid()) {
        OverlayRegular(old(cells), c, cells, old(width), old(height), width, height);
      }
    }

    /** Move the cursor to the first free position in its row. */
    method Skip()
      requires InTable()
      modifies this`x
      ensures InTable() && (old(Valid()) ==> Valid())
      ensures old(x) <= x && At(cells, x, y) == None
      ensures forall i :: old(x) <= i < x ==> At(cells, i, y).Some?
    {
      while At(cells, x, y).Some?
        invariant old(x) <= x
        invariant forall i :: old(x) <= i < x ==> At(cells, i, y).Some?
        decreases width - x
      {
        x := x + 1;
      }
    }

    /** Add a cell at the cursor. */
    method AddCell(w: nat, h: nat, heading: bool, text: string)
      requires InTable()
      modifies this
      ensures var c := Cell(old(x), old(y), w, h, heading, text);
              InTable() && Overlaid(old(cells), c, cells)
              && (old(Valid()) ==> (Valid() <==> HidesWholly(old(cells), c)))
      ensures y == old(y) && old(x) <= x && At(cells, x, y) == None
      ensures forall i :: old(x) <= i < x ==> At(cells, i, y).Some?
    {
      SetCell(Cell(x, y, w, h, heading, text));
      Skip();
    }

    method NewRow()
      requires InTable()
      modifies this`x, this`y
      ensures InTable() && (old(Valid()) ==> Valid())
      ensures y == old(y) + 1 && At(cells, x, y) == None
      ensures forall i :: 0 <= i < x ==> At(cells, i, y).Some?
    {
      x, y := 0, y + 1;
      Skip();
    }

    // ----- renderText

    /** The first pass: the least widths for the cells of one column. */
    method SingleWidths() returns (singles: seq<nat>)
      ensures |singles| == width && forall x :: 0 <= x < width ==> IsSingleWidth(cells, height, x, singles[x])
    {
      singles := [];
      for xpos := 0 to width
        invariant |singles| == xpos && forall x :: 0 <= x < xpos ==> IsSingleWidth(cells, height, x, singles[x])
      {
        var columnWidth := 0;
        for ypos := 0 to height
          invariant IsSingleWidth(cells, ypos, xpos, columnWidth)
        {
          var w := Single(cells, xpos, ypos);
          if w > columnWidth { columnWidth := w; }
        }
        singles := singles + [columnWidth];
      }
    }

    /** The second pass at one cell: more for its first column, if the cell is
        wider than one column and short of space. */
    method Widen(widths: seq<nat>, ghost singles: seq<nat>, xpos: nat, ypos: nat) returns (wider: seq<nat>)
      requires Valid() && xpos < width == |widths| == |singles|
      requires forall x :: xpos < x < width ==> widths[x] == singles[x]
      ensures var need := Multiple(cells, singles, xpos, ypos);
              wider == if need > widths[xpos] then widths[xpos := need] else widths
    {
      wider := widths;
      var cell := At(cells, xpos, ypos);
      if cell.Some? && cell.value.x == xpos && cell.value.w > 1 {
        var w := cell.value.w;
        WholeFromRoot(cells, width, height, xpos, ypos);
        SumSplit(widths, xpos, xpos + 1, xpos + w);
        SumSame(widths, singles, xpos + 1, xpos + w);
        assert Sum(widths, xpos, xpos + 1) == Sum(widths, xpos, xpos) + widths[xpos];
        var availableWidth := 3 * (w - 1) + Sum(widths, xpos, xpos + w);
        if |cell.value.text| > availableWidth {
          wider := widths[xpos := widths[xpos] + (|cell.value.text| - availableWidth)];
        }
      }
    }

    method WidenColumn(widths: seq<nat>, ghost singles: seq<nat>, xpos: nat) returns (wider: seq<nat>)
      requires Valid() && xpos < width == |widths| == |singles|
      requires forall x :: xpos <= x < width ==> widths[x] == singles[x]
      ensures |wider| == width && wider == widths[xpos := wider[xpos]]
      ensures IsWidth(cells, height, singles, xpos, wider[xpos])
    {
      wider := widths;
      for ypos := 0 to height
        invariant |wider| == width && wider == widths[xpos := wider[xpos]]
        invariant IsWidth(cells, ypos, singles, xpos, wider[xpos])
      {
        wider := Widen(wider, singles, xpos, ypos);
      }
    }

    method ColumnWidths() returns (widths: seq<nat>)
      requires Valid()
      ensures LeastWidths(cells, width, height, widths)
    {
      widths := SingleWidths();
      ghost var singles := widths;
      for xpos := 0 to width
        invariant |widths| == width
        invariant forall x :: xpos <= x < width ==> widths[x] == singles[x]
        invariant forall x :: 0 <= x < xpos ==> IsWidth(cells, height, singles, x, widths[x])
      {
        widths := WidenColumn(widths, singles, xpos);
      }
      assert AreWidths(cells, width, height, singles, widths);
    }

    method CellText(widths: seq<nat>, c: Cell) returns (field: string)
      requires c.w >= 1 && c.x + c.w <= |widths| && |c.text| <= Available(widths, c)
      ensures field == Field(widths, c)
      ensures '\n' !in c.text ==> '\n' !in field
    {
      var availableWidth := 3 * (c.w - 1) + Sum(widths, c.x, c.x + c.w);
      var left := availableWidth - |c.text|;
      field := "";
      if c.heading {
        field := field + Spaces(left / 2);
        left := left - left / 2;
      }
      field := field + c.text + Spaces(left);
    }

    /** One column of one row in the third pass. */
    method Column(os: string, widths: seq<nat>, xpos: nat, ypos: nat) returns (more: string)
      requires Valid() && LeastWidths(cells, width, height, widths) && xpos < width
      requires Frontier(cells, width, xpos, ypos) <= width && |os| == LengthTo(widths, Frontier(cells, width, xpos, ypos))
      ensures os <= more && ColumnRight(more, cells, widths, xpos, ypos)
      ensures OneLine(cells) && '\n' !in os ==> '\n' !in more
      ensures Frontier(cells, width, xpos + 1, ypos) <= width
      ensures |more| == LengthTo(widths, Frontier(cells, width, xpos + 1, ypos))
    {
      more := os;
      FrontierMoves(cells, width, height, xpos, ypos);
      var cell := At(cells, xpos, ypos);
      if cell.Some? && cell.value.y == ypos {
        if cell.value.x == xpos {
          EverythingFits(cells, width, height, widths, xpos, ypos);
          var field := CellText(widths, cell.value);
          more := os + (if xpos > 0 then " | " else "| ") + field;
          Appended(widths, os, xpos, field, more, xpos + cell.value.w);
        }
      } else {
        assert Sum(widths, xpos, xpos + 1) == Sum(widths, xpos, xpos) + widths[xpos];
        more := os + (if xpos > 0 then " | " else "| ") + Spaces(widths[xpos]);
        Appended(widths, os, xpos, Spaces(widths[xpos]), more, xpos + 1);
      }
      assert ColumnRight(more, cells, widths, xpos, ypos) by { assert Unfold(0); }
    }

    /** One row, but for the newline. */
    method Row(widths: seq<nat>, ypos: nat) returns (os: string)
      requires Valid() && LeastWidths(cells, width, height, widths)
      ensures |os| == RowLength(widths) && os[|os| - 1] == '|' && (OneLine(cells) ==> '\n' !in os)
      ensures forall x :: 0 <= x < width ==> ColumnRight(os, cells, widths, x, ypos)
    {
      os := "";
      for xpos := 0 to width
        invariant Frontier(cells, width, xpos, ypos) <= width && (OneLine(cells) ==> '\n' !in os)
        invariant |os| == LengthTo(widths, Frontier(cells, width, xpos, ypos))
        invariant forall x :: 0 <= x < xpos ==> ColumnRight(os, cells, widths, x, ypos)
      {
        ghost var was := os;
        os := Column(os, widths, xpos, ypos);
        forall x | 0 <= x < xpos ensures ColumnRight(os, cells, widths, x, ypos) {
          StillRight(was, os, cells, widths, x, ypos);
        }
      }
      ghost var was := os;
      os := os + "|";
      forall x | 0 <= x < width ensures ColumnRight(os, cells, widths, x, ypos) {
        StillRight(was, os, cells, widths, x, ypos);
      }
    }

    /** The text of a table: its rows, all of one length, and an empty line. */
    method RenderText() returns (lines: seq<string>)
      requires Valid()
      ensures |lines| == height + 1 && lines[height] == ""
      ensures OneLine(cells) ==> forall y :: 0 <= y < height ==> '\n' !in lines[y]
      ensures exists widths :: LeastWidths(cells, width, height, widths)
                && (forall y :: 0 <= y < height ==> |lines[y]| == RowLength(widths))
                && (forall x, y :: 0 <= x < width && 0 <= y < height ==> ColumnRight(lines[y], cells, widths, x, y))
    {
      var widths := ColumnWidths();
      lines := [];
      for ypos := 0 to height
        invariant |lines| == ypos && (OneLine(cells) ==> forall y :: 0 <= y < ypos ==> '\n' !in lines[y])
        invariant forall y :: 0 <= y < ypos ==> |lines[y]| == RowLength(widths)
        invariant forall x, y :: 0 <= x < width && 0 <= y < ypos ==> ColumnRight(lines[y], cells, widths, x, y)
      {
        var row := Row(widths, ypos);
        lines := lines + [row];
      }
      lines := lines + [""];
    }
  }
}
