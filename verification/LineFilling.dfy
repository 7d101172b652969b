/** Where the lines of a written list are broken: a line takes every word that
    still fits and no other. */
module LineFilling {
  import opened Common
  import opened Words
  import opened VectorDirective

  /** A line of a list: the directive, with a plus if it is not the first, and
      words. */
  ghost function LineText(step: nat, directive: string, first: bool, ws: seq<string>): string {
    if ws == [] then if first then Spaces(step) + directive else Continue(step, directive)
    else LineText(step, directive, first, Front(ws)) + [' '] + Quotation(Last(ws))
  }

  /** Each word, before it is quoted, ends before column 80, but for the word that
      a new line is begun with. */
  ghost predicate Fits(step: nat, directive: string, first: bool, ws: seq<string>) {
    ws != [] ==>
      Fits(step, directive, first, Front(ws))
      && (first || |ws| > 1 ==> |LineText(step, directive, first, Front(ws))| + |Last(ws)| < 80)
  }

  /** The lines fit, and none could have taken the first word of the next. */
  ghost predicate Filled(step: nat, directive: string, first: bool, lines: seq<seq<string>>) {
    lines != [] && Fits(step, directive, first, lines[0])
    && (|lines| > 1 ==>
          lines[1] != [] && |LineText(step, directive, first, lines[0])| + |lines[1][0]| >= 80
          && Filled(step, directive, false, lines[1..]))
  }

  ghost function PageText(step: nat, directive: string, first: bool, lines: seq<seq<string>>): string {
    if lines == [] then []
    else LineText(step, directive, first, lines[0]) + "\n" + PageText(step, directive, false, lines[1..])
  }

  ghost function AllWords(lines: seq<seq<string>>): seq<string> {
    if lines == [] then [] else lines[0] + AllWords(lines[1..])
  }

  /** `lines` are what becomes of a line that has the words `ws` when `vs` are to
      follow. */
  ghost predicate GoesOn(step: nat, directive: string, first: bool, ws: seq<string>, vs: seq<string>, lines: seq<seq<string>>) {
    Filled(step, directive, first, lines) && ws <= lines[0] && AllWords(lines) == ws + vs
    && PageText(step, directive, first, lines)
       == From(step, directive, LineText(step, directive, first, ws), vs)
  }

  lemma LastLine(step: nat, directive: string, first: bool, ws: seq<string>)
    requires Fits(step, directive, first, ws)
    ensures GoesOn(step, directive, first, ws, [], [ws])
  {
    assert [ws][1..] == [];
    assert LineText(step, directive, first, ws) + "\n" + [] == LineText(step, directive, first, ws) + "\n";
  }

  lemma OneWordLine(step: nat, directive: string, w: string)
    ensures LineText(step, directive, false, [w]) == Continue(step, directive) + [' '] + Quotation(w)
  {
    assert Front([w]) == [];
  }

  /** What is written from the end of a line on. */
  ghost function From(step: nat, directive: string, cur: string, vs: seq<string>): string {
    cur + Remaining(step, directive, |cur|, vs)
  }

  lemma NextFrom(step: nat, directive: string, cur: string, vs: seq<string>)
    requires vs != [] && |cur| + |vs[0]| >= 80
    ensures From(step, directive, cur, vs)
            == cur + "\n" + From(step, directive, Continue(step, directive) + [' '] + Quotation(vs[0]), vs[1..])
  {
    var next := Continue(step, directive) + [' '] + Quotation(vs[0]);
    Reassociate(cur, "\n", next, Remaining(step, directive, |next|, vs[1..]));
  }

  lemma SameFrom(step: nat, directive: string, cur: string, vs: seq<string>)
    requires vs != [] && |cur| + |vs[0]| < 80
    ensures From(step, directive, cur, vs) == From(step, directive, cur + [' '] + Quotation(vs[0]), vs[1..])
  {
    var q := Quotation(vs[0]);
    Reassociate(cur, [' '], q, Remaining(step, directive, |cur| + |q| + 1, vs[1..]));
  }

  lemma NextLine(step: nat, directive: string, first: bool, ws: seq<string>, vs: seq<string>, more: seq<seq<string>>)
    requires Fits(step, directive, first, ws) && vs != []
    requires |LineText(step, directive, first, ws)| + |vs[0]| >= 80
    requires GoesOn(step, directive, false, [vs[0]], vs[1..], more)
    ensures GoesOn(step, directive, first, ws, vs, [ws] + more)
  {
    OneWordLine(step, directive, vs[0]);
    NextFrom(step, directive, LineText(step, directive, first, ws), vs);
    assert ([ws] + more)[1..] == more;
    assert [vs[0]] + vs[1..] == vs;
  }

  lemma OneWordMore(step: nat, directive: string, first: bool, ws: seq<string>, w: string)
    ensures LineText(step, directive, first, ws + [w]) == LineText(step, directive, first, ws) + [' '] + Quotation(w)
  {
    assert Front(ws + [w]) == ws && Last(ws + [w]) == w;
  }

  lemma Regrouped(ws: seq<string>, vs: seq<string>, line: seq<string>)
    requires vs != [] && ws + [vs[0]] <= line
    ensures ws <= line && ws + [vs[0]] + vs[1..] == ws + vs
  {
  }

  lemma SameLine(step: nat, directive: string, first: bool, ws: seq<string>, vs: seq<string>, lines: seq<seq<string>>)
    requires vs != [] && |LineText(step, directive, first, ws)| + |vs[0]| < 80
    requires GoesOn(step, directive, first, ws + [vs[0]], vs[1..], lines)
    ensures GoesOn(step, directive, first, ws, vs, lines)
  {
    OneWordMore(step, directive, first, ws, vs[0]);
    SameFrom(step, directive, LineText(step, directive, first, ws), vs);
    Regrouped(ws, vs, lines[0]);
  }

  lemma {:induction false} RemainingFilled(step: nat, directive: string, first: bool, ws: seq<string>, vs: seq<string>)
    returns (lines: seq<seq<string>>)
    requires Fits(step, directive, first, ws)
    ensures GoesOn(step, directive, first, ws, vs, lines)
    decreases |vs|
  {
    if vs == [] {
      lines := [ws];
      LastLine(step, directive, first, ws);
      assert ws + [] == ws;
    } else if |LineText(step, directive, first, ws)| + |vs[0]| >= 80 {
      assert Front([vs[0]]) == [];
      var more := RemainingFilled(step, directive, false, [vs[0]], vs[1..]);
      lines := [ws] + more;
      NextLine(step, directive, first, ws, vs, more);
    } else {
      assert Front(ws + [vs[0]]) == ws;
      lines := RemainingFilled(step, directive, first, ws + [vs[0]], vs[1..]);
      SameLine(step, directive, first, ws, vs, lines);
    }
  }

  /** A list is written as lines that have its words in order; no word that is
      not the first of a new line goes beyond column 80, but for its quotes, and
      no word is on a new line that would have fitted on the one before. */
  lemma WrittenIsFilled(step: nat, directive: string, value: seq<string>) returns (lines: seq<seq<string>>)
    ensures Written(step, directive, value) == PageText(step, directive, true, lines)
    ensures AllWords(lines) == value && Filled(step, directive, true, lines)
  {
    lines := RemainingFilled(step, directive, true, [], value);
    assert [] + value == value;
    if value == [] {
      assert Spaces(step) + directive + "\n" == LineText(step, directive, true, []) + Remaining(step, directive, step + |directive|, []);
    }
  }
}
