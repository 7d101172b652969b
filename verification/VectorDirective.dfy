/** Directives that set a list of words: how the list is written to a
    configuration file, and how the written lines set it again. */
module VectorDirective {
  import opened Folding
  import opened Words

  // ----- Writing

  ghost function Spaces(n: nat): string { seq(n, _ => ' ') }

  ghost function Continue(step: nat, directive: string): string {
    Spaces(step) + directive + " +"
  }

  /** What `writeVector` writes for `vs` when `y` columns of the line are taken
      and some word has been written already, or none (after the directive). */
  ghost function Remaining(step: nat, directive: string, y: nat, vs: seq<string>): string
    decreases |vs|
  {
    if vs == [] then "\n"
    else
      var q := Quotation(vs[0]);
      if y + |vs[0]| >= 80 then
        "\n" + (Continue(step, directive) + [' '] + q)
        + Remaining(step, directive, step + |directive| + 2 + |q| + 1, vs[1..])
      else [' '] + q + Remaining(step, directive, y + |q| + 1, vs[1..])
  }

  ghost function Written(step: nat, directive: string, value: seq<string>): string {
    Spaces(step) + directive
    + if value == [] then "\n" else Remaining(step, directive, step + |directive|, value)
  }

  method WriteVector(step: nat, directive: string, value: seq<string>) returns (os: string)
    ensures os == Written(step, directive, value)
  {
    os := seq(step, _ => ' ') + directive;
    if |value| > 0 {
      var y: nat := step + |directive|;
      for i := 0 to |value|
        invariant i > 0 ==> y > 0
        invariant Written(step, directive, value) == os + Remaining(step, directive, y, value[i..])
      {
        var s := value[i];
        assert value[i..][1..] == value[i + 1..];
        ghost var before, y0 := os, y;
        if y + |s| >= 80 {
          os := os + "\n" + (seq(step, _ => ' ') + directive + " +");
          y := step + |directive| + 2;
        }
        var q := Quote(s);
        os := os + [' '] + q;
        y := y + |q| + 1;
        WriteStep(before, os, step, directive, y0, value[i..], q);
      }
      assert value[|value|..] == [];
      if y > 0 { os := os + "\n"; }
    } else {
      os := os + "\n";
    }
  }

  lemma WriteStep(before: string, after: string, step: nat, directive: string, y: nat, vs: seq<string>, q: string)
    requires vs != [] && q == Quotation(vs[0])
    requires after == if y + |vs[0]| >= 80 then before + "\n" + (Spaces(step) + directive + " +") + [' '] + q
                      else before + [' '] + q
    ensures var y' := if y + |vs[0]| >= 80 then step + |directive| + 2 + |q| + 1 else y + |q| + 1;
            before + Remaining(step, directive, y, vs) == after + Remaining(step, directive, y', vs[1..])
  {
    if y + |vs[0]| >= 80 {
      var rest := Remaining(step, directive, step + |directive| + 2 + |q| + 1, vs[1..]);
      var next := Continue(step, directive);
      Reassociate(before, "\n", next + [' '] + q, rest);
      Reassociate(before + "\n", next, [' '], q);
    } else {
      Reassociate(before, [' '], q, Remaining(step, directive, y + |q| + 1, vs[1..]));
    }
  }

  lemma Reassociate(a: string, b: string, c: string, d: string)
    ensures a + (b + c + d) == a + b + (c + d) == a + b + c + d
  {
  }

  // ----- Reading

  /** What `ConfDirective::extend` does to a list; `bits[0]` is the directive. */
  function Extend(bits: seq<string>, conf: seq<string>): seq<string>
    requires |bits| >= 2
  {
    if bits[1] == "+" then conf + bits[2..] else bits[1..]
  }

  /** A list that is continued on another line is the list on one line. */
  lemma ContinuedIsOneLine(bits: seq<string>, more: seq<string>, conf: seq<string>)
    requires |bits| >= 2
    ensures Extend([bits[0], "+"] + more, Extend(bits, conf)) == Extend(bits + more, conf)
  {
    var next := [bits[0], "+"] + more;
    assert next[2..] == more;
    if bits[1] == "+" {
      assert (bits + more)[2..] == bits[2..] + more;
      assert conf + bits[2..] + more == conf + (bits[2..] + more);
    } else {
      assert (bits + more)[1..] == bits[1..] + more;
    }
  }

  /** The list before the line is forgotten just if the line does not begin with
      a "+". */
  lemma ForgottenIff(bits: seq<string>)
    requires |bits| >= 2
    ensures (forall conf, other :: Extend(bits, conf) == Extend(bits, other)) <==> bits[1] != "+"
  {
    if bits[1] == "+" {
      var none: seq<string>, one := [], [""];
      assert |Extend(bits, none)| != |Extend(bits, one)|;
    }
  }

  /** The configured value, or an error: a line that cannot be split, or a bare
      directive, whose first argument `extend` would look for past the end. */
  datatype Reading = Value(conf: seq<string>) | Failed

  ghost function ReadLine(directive: string, line: string, conf: seq<string>): Reading {
    var m := Meaning(line);
    if !m.Found? then Failed
    else if m.words == [] then Value(conf)
    else if m.words[0] != directive then Value(conf)
    else if |m.words| < 2 then Failed
    else Value(Extend(m.words, conf))
  }

  /** How far the first newline is. */
  ghost function LineLength(text: string): (n: nat)
    ensures n <= |text|
    ensures '\n' !in text[..n]
    ensures n < |text| ==> text[n] == '\n'
  {
    if text == [] || text[0] == '\n' then 0 else 1 + LineLength(text[1..])
  }

  ghost function ReadText(directive: string, text: string, conf: seq<string>): Reading
    decreases |text|
  {
    if text == [] then Value(conf)
    else
      var n := LineLength(text);
      var r := ReadLine(directive, text[..n], conf);
      if r.Failed? || n == |text| then r else ReadText(directive, text[n + 1..], r.conf)
  }

  /** `ReadText(…) == r`, kept folded so that the verifier opens it only where a
      proof says `Unfold`. */
  ghost predicate Gives(directive: string, text: string, conf: seq<string>, r: Reading) {
    forall k {:trigger Unfold(k)} :: Unfold(k) ==> ReadText(directive, text, conf) == r
  }

  /** Reading `text` with `first` is reading the rest with `conf`; folded. */
  ghost predicate ReadSoFar(directive: string, text: string, first: seq<string>, pos: nat, conf: seq<string>) {
    pos <= |text|
    && forall k {:trigger Unfold(k)} :: Unfold(k) ==> ReadText(directive, text, first) == ReadText(directive, text[pos..], conf)
  }

  lemma ReadMore(directive: string, text: string, first: seq<string>, pos: nat, conf: seq<string>, end: nat)
    requires ReadSoFar(directive, text, first, pos, conf)
    requires pos < |text| && pos <= end <= |text| && LineLength(text[pos..]) == end - pos
    ensures var r := ReadLine(directive, text[pos..end], conf);
            if r.Failed? then ReadText(directive, text, first) == Failed
            else ReadSoFar(directive, text, first, if end < |text| then end + 1 else end, r.conf)
  {
    assert Unfold(0);
    assert text[pos..][..end - pos] == text[pos..end];
    if end < |text| {
      assert text[pos..][end - pos + 1..] == text[end + 1..];
    } else {
      assert text[end..] == [];
    }
  }

  lemma ReadAll(directive: string, text: string, first: seq<string>, pos: nat, conf: seq<string>)
    requires ReadSoFar(directive, text, first, pos, conf) && pos == |text|
    ensures ReadText(directive, text, first) == Value(conf)
  {
    assert Unfold(0);
    assert text[pos..] == [];
  }

  /** The list that a directive sets. */
  class Setting {
    var conf: seq<string>

    method Set(bits: seq<string>)
      requires |bits| >= 2
      modifies this
      ensures conf == Extend(bits, old(conf))
    {
      if bits[1] == "+" {
        conf := conf + bits[2..];
      } else {
        conf := bits[1..];
      }
    }

    /** `IO::readline`, but for the end of file. */
    static method LineEnd(text: string, start: nat) returns (end: nat)
      requires start <= |text|
      ensures start <= end <= |text| && LineLength(text[start..]) == end - start
    {
      end := start;
      while end < |text| && text[end] != '\n'
        invariant start <= end <= |text|
        invariant LineLength(text[start..]) == end - start + LineLength(text[end..])
      {
        assert text[end..][1..] == text[end + 1..];
        end := end + 1;
      }
    }

    /** One line: nothing, some other directive, or this one with its words. */
    method Apply(directive: string, line: string) returns (ok: bool)
      modifies this
      ensures ReadLine(directive, line, old(conf)) == if ok then Value(conf) else Failed
    {
      var r, _ := Split(line);
      if !r.Found? { return false; }
      if |r.words| == 0 { return true; }
      if r.words[0] != directive { return true; }
      if |r.words| < 2 { return false; }
      Set(r.words);
      return true;
    }

    method ReadLines(directive: string, text: string) returns (ok: bool)
      modifies this
      ensures ReadText(directive, text, old(conf)) == if ok then Value(conf) else Failed
    {
      var pos: nat := 0;
      assert text[0..] == text;
      while pos < |text|
        invariant ReadSoFar(directive, text, old(conf), pos, conf)
      {
        var end := LineEnd(text, pos);
        ghost var was := conf;
        ok := Apply(directive, text[pos..end]);
        ReadMore(directive, text, old(conf), pos, was, end);
        if !ok { return; }
        pos := if end < |text| then end + 1 else end;
      }
      ReadAll(directive, text, old(conf), pos, conf);
      ok := true;
    }
  }

  lemma {:induction false} LineLengthIs(line: string, rest: string)
    requires '\n' !in line
    ensures LineLength(line + "\n" + rest) == |line|
  {
    var text := line + "\n" + rest;
    if line != [] {
      assert text[1..] == line[1..] + "\n" + rest;
      LineLengthIs(line[1..], rest);
    }
  }

  lemma ReadFirstLine(directive: string, line: string, rest: string, conf: seq<string>)
    requires '\n' !in line
    ensures var r := ReadLine(directive, line, conf);
            ReadText(directive, line + "\n" + rest, conf) == if r.Failed? then r else ReadText(directive, rest, r.conf)
  {
    var text := line + "\n" + rest;
    LineLengthIs(line, rest);
    assert text[..|line|] == line && text[|line| + 1..] == rest;
    if rest == [] { assert text[|line| + 1..] == []; }
  }

  // ----- Lines under construction

  /** `cur` is the beginning of a line and has the words `ws`. */
  ghost predicate Holds(cur: string, ws: seq<string>) {
    '\n' !in cur && forall rest :: Reads(cur, ws, rest)
  }

  ghost predicate Reads(cur: string, ws: seq<string>, rest: string) {
    Follows(rest) ==> Meaning(cur + rest) == Prepend(ws, Meaning(rest))
  }

  lemma HoldsMore(cur: string, ws: seq<string>, s: string)
    requires Holds(cur, ws) && '\n' !in s
    ensures Holds(cur + [' '] + Quotation(s), ws + [s])
  {
    var q := Quotation(s);
    forall rest ensures Reads(cur + [' '] + q, ws + [s], rest) {
      assert Reads(cur, ws, [' '] + (q + rest));
      assert cur + [' '] + q + rest == cur + ([' '] + (q + rest));
      assert ([' '] + (q + rest))[1..] == q + rest;
      assert Meaning([' '] + (q + rest)) == Meaning(q + rest);
      if Follows(rest) { QuotedWordRead(s, rest); }
      PrependTwice(ws, s, Meaning(rest));
    }
    NoNewlineQuoted(s);
  }

  lemma {:induction false} NoNewlineEscaped(s: string)
    ensures '\n' in Escaped(s) <==> '\n' in s
  {
    if s != [] {
      NoNewlineEscaped(s[1..]);
      assert s == [s[0]] + s[1..];
    }
  }

  lemma NoNewlineQuoted(s: string)
    ensures '\n' in Quotation(s) <==> '\n' in s
  {
    NoNewlineEscaped(s);
  }

  lemma {:induction false} SpacesRead(n: nat, s: string)
    ensures Meaning(Spaces(n) + s) == Meaning(s)
  {
    if n == 0 {
      assert Spaces(0) + s == s;
    } else {
      assert (Spaces(n) + s)[1..] == Spaces(n - 1) + s;
      SpacesRead(n - 1, s);
    }
  }

  /** A directive's name: a word that needs no quoting. */
  ghost predicate Plain(directive: string) {
    !NeedsQuoting(directive)
  }

  lemma HoldsDirective(step: nat, directive: string)
    requires Plain(directive)
    ensures Holds(Spaces(step) + directive, [directive])
  {
    var cur := Spaces(step) + directive;
    forall rest ensures Reads(cur, [directive], rest) {
      assert cur + rest == Spaces(step) + (directive + rest);
      SpacesRead(step, directive + rest);
      if Follows(rest) { PlainWordRead(directive, rest); }
    }
    forall i | 0 <= i < |directive| ensures directive[i] != '\n' {
      assert !EndsWord(directive[i]);
    }
  }

  lemma HoldsContinue(step: nat, directive: string)
    requires Plain(directive)
    ensures Holds(Continue(step, directive), [directive, "+"])
  {
    HoldsDirective(step, directive);
    HoldsMore(Spaces(step) + directive, [directive], "+");
    assert !NeedsQuoting("+") && Quotation("+") == "+";
    assert Spaces(step) + directive + [' '] + "+" == Continue(step, directive);
    assert [directive] + ["+"] == [directive, "+"];
  }

  lemma HoldsRead(directive: string, cur: string, ws: seq<string>, conf: seq<string>)
    requires Holds(cur, ws) && ws != [] && ws[0] == directive
    ensures ReadLine(directive, cur, conf) == if |ws| < 2 then Failed else Value(Extend(ws, conf))
  {
    assert cur + [] == cur;
    assert Reads(cur, ws, []);
    assert ws + [] == ws;
  }

  // ----- Reading what was written

  /** Reading a text whose first line is `cur`. */
  lemma ReadHeld(directive: string, text: string, cur: string, ws: seq<string>, rest: string, conf: seq<string>,
                 r: Reading)
    requires text == cur + "\n" + rest
    requires Holds(cur, ws) && ws != [] && ws[0] == directive
    requires if |ws| < 2 then r == Failed else Gives(directive, rest, Extend(ws, conf), r)
    ensures Gives(directive, text, conf, r)
  {
    assert Unfold(0);
    ReadFirstLine(directive, cur, rest, conf);
    HoldsRead(directive, cur, ws, conf);
  }

  /** The words of a continuation line that has its first argument. */
  lemma HoldsNext(step: nat, directive: string, s: string, conf: seq<string>)
    requires Plain(directive) && '\n' !in s
    ensures Holds(Continue(step, directive) + [' '] + Quotation(s), [directive, "+", s])
    ensures Extend([directive, "+", s], conf) == conf + [s]
  {
    HoldsContinue(step, directive);
    HoldsMore(Continue(step, directive), [directive, "+"], s);
    assert [directive, "+"] + [s] == [directive, "+", s];
    assert [directive, "+", s][2..] == [s];
  }

  lemma ReadLast(directive: string, cur: string, ws: seq<string>, conf: seq<string>)
    requires Holds(cur, ws) && |ws| >= 2 && ws[0] == directive
    ensures Gives(directive, cur + "\n", conf, Value(Extend(ws, conf)))
  {
    assert cur + "\n" + [] == cur + "\n";
    assert Gives(directive, [], Extend(ws, conf), Value(Extend(ws, conf)));
    ReadHeld(directive, cur + "\n", cur, ws, [], conf, Value(Extend(ws, conf)));
  }

  /** `t` is `Remaining(…)`, folded. */
  ghost predicate Leaves(step: nat, directive: string, y: nat, vs: seq<string>, t: string) {
    forall k {:trigger Unfold(k)} :: Unfold(k) ==> t == Remaining(step, directive, y, vs)
  }

  /** One more word on the current line. */
  lemma LeavesFits(step: nat, directive: string, cur: string, y: nat, vs: seq<string>, t: string)
    returns (q: string, rest: string)
    requires vs != [] && y + |vs[0]| < 80 && Leaves(step, directive, y, vs, t)
    ensures q == Quotation(vs[0]) && cur + t == cur + [' '] + q + rest
    ensures Leaves(step, directive, y + |q| + 1, vs[1..], rest)
  {
    assert Unfold(0);
    q := Quotation(vs[0]);
    rest := Remaining(step, directive, y + |q| + 1, vs[1..]);
    Reassociate(cur, [' '], q, rest);
  }

  /** One more line. */
  lemma LeavesOverflows(step: nat, directive: string, cur: string, y: nat, vs: seq<string>, t: string)
    returns (q: string, rest: string)
    requires vs != [] && y + |vs[0]| >= 80 && Leaves(step, directive, y, vs, t)
    ensures q == Quotation(vs[0]) && cur + t == cur + "\n" + (Continue(step, directive) + [' '] + q + rest)
    ensures Leaves(step, directive, step + |directive| + 2 + |q| + 1, vs[1..], rest)
  {
    assert Unfold(0);
    q := Quotation(vs[0]);
    rest := Remaining(step, directive, step + |directive| + 2 + |q| + 1, vs[1..]);
    Reassociate(cur, "\n", Continue(step, directive) + [' '] + q, rest);
  }

  /** From the middle of a line that already has an argument on. */
  lemma {:induction false} ReadRemaining(step: nat, directive: string, cur: string, ws: seq<string>, y: nat,
                                         vs: seq<string>, t: string, conf: seq<string>)
    requires Plain(directive) && Holds(cur, ws) && |ws| >= 2 && ws[0] == directive
    requires OneLineWords(vs) && Leaves(step, directive, y, vs, t)
    ensures Gives(directive, cur + t, conf, Value(Extend(ws, conf) + vs))
    decreases |vs|
  {
    var done := Extend(ws, conf);
    if vs == [] {
      assert t == "\n" by { assert Unfold(0); }
      ReadLast(directive, cur, ws, conf);
      assert done + vs == done;
    } else {
      var s := vs[0];
      assert done + [s] + vs[1..] == done + vs;
      if y + |s| >= 80 {
        var q, rest := LeavesOverflows(step, directive, cur, y, vs, t);
        var next := Continue(step, directive) + [' '] + q;
        HoldsNext(step, directive, s, done);
        ReadRemaining(step, directive, next, [directive, "+", s], step + |directive| + 2 + |q| + 1, vs[1..], rest, done);
        ReadHeld(directive, cur + t, cur, ws, next + rest, conf, Value(done + vs));
      } else {
        var q, rest := LeavesFits(step, directive, cur, y, vs, t);
        HoldsMore(cur, ws, s);
        ReadRemaining(step, directive, cur + [' '] + q, ws + [s], y + |q| + 1, vs[1..], rest, conf);
        ExtendMore(ws, s, conf);
      }
    }
  }

  lemma ExtendMore(ws: seq<string>, s: string, conf: seq<string>)
    requires |ws| >= 2
    ensures Extend(ws + [s], conf) == Extend(ws, conf) + [s]
  {
    if ws[1] == "+" {
      assert (ws + [s])[2..] == ws[2..] + [s];
    } else {
      assert (ws + [s])[1..] == ws[1..] + [s];
    }
  }

  ghost predicate OneLineWords(value: seq<string>) {
    value != [] ==> '\n' !in value[0] && OneLineWords(value[1..])
  }

  ghost predicate FirstFits(step: nat, directive: string, value: seq<string>) {
    value != [] && step + |directive| + |value[0]| < 80
  }

  lemma {:induction false} EscapedConcat(a: string, b: string)
    ensures Escaped(a + b) == Escaped(a) + Escaped(b)
  {
    if a == [] {
      assert a + b == b;
    } else {
      assert (a + b)[1..] == a[1..] + b;
      EscapedConcat(a[1..], b);
    }
  }

  lemma {:induction false} EscapedIsUnterminated(s: string)
    ensures Unquote(Escaped(s)).Unterminated?
  {
    if s != [] {
      EscapedIsUnterminated(s[1..]);
      var t := Escaped(s);
      if s[0] == '\\' || s[0] == '"' {
        assert t == ['\\', s[0]] + Escaped(s[1..]);
        assert t[1..][1..] == Escaped(s[1..]) && t[1..][0] == s[0];
      } else {
        assert t[1..] == Escaped(s[1..]);
      }
    }
  }

  lemma CutLineMalformed(cur: string, ws: seq<string>, head: string)
    requires Holds(cur, ws)
    ensures Meaning(cur + ([' ', '"'] + Escaped(head))).Malformed?
  {
    var cut, t := ['"'] + Escaped(head), [' ', '"'] + Escaped(head);
    EscapedIsUnterminated(head);
    assert cut[1..] == Escaped(head);
    assert t[1..] == cut;
    assert Meaning(cut) == Malformed;
    assert Meaning(t) == Meaning(cut);
    assert Reads(cur, ws, t);
  }

  /** Where the first newline is. */
  lemma CutAtNewline(s: string) returns (head: string, tail: string)
    requires '\n' in s
    ensures '\n' !in head && s == head + (['\n'] + tail)
  {
    var n := LineLength(s);
    assert s == s[..n] + s[n..];
    head, tail := s[..n], s[n + 1..];
  }

  lemma EscapedCut(head: string, tail: string)
    requires '\n' !in head
    ensures '\n' !in Escaped(head)
    ensures Escaped(head + (['\n'] + tail)) == Escaped(head) + "\n" + Escaped(tail)
  {
    var back := ['\n'] + tail;
    assert back[1..] == tail;
    EscapedConcat(head, back);
    NoNewlineEscaped(head);
    assert Escaped(back) == "\n" + Escaped(tail);
  }

  lemma Requoted(a: string, b: string)
    ensures ['"'] + (a + "\n" + b) + ['"'] == ['"'] + a + "\n" + (b + ['"'])
  {
  }

  lemma NewlineIsQuoted(s: string)
    requires '\n' in s
    ensures Quotation(s) == ['"'] + Escaped(s) + ['"']
  {
    var i :| 0 <= i < |s| && s[i] == '\n';
    assert EndsWord(s[i]);
  }

  lemma QuotationCut(head: string, tail: string)
    requires '\n' !in head
    ensures Quotation(head + (['\n'] + tail)) == ['"'] + Escaped(head) + "\n" + (Escaped(tail) + ['"'])
  {
    assert (head + (['\n'] + tail))[|head|] == '\n';
    NewlineIsQuoted(head + (['\n'] + tail));
    EscapedCut(head, tail);
    Requoted(Escaped(head), Escaped(tail));
  }

  /** A word with a newline in it is cut off inside its quotes. */
  lemma ReadCutWord(directive: string, cur: string, ws: seq<string>, s: string, rest: string, conf: seq<string>)
    requires Holds(cur, ws) && '\n' in s
    ensures Gives(directive, cur + [' '] + Quotation(s) + rest, conf, Failed)
  {
    var head, tail := CutAtNewline(s);
    QuotationCut(head, tail);
    EscapedCut(head, tail);
    CutLineMalformed(cur, ws, head);
    CutLineFails(directive, cur, Escaped(head), Escaped(tail) + ['"'], rest, conf);
  }

  lemma CutLineFails(directive: string, cur: string, a: string, b: string, rest: string, conf: seq<string>)
    requires '\n' !in cur && '\n' !in a && Meaning(cur + ([' ', '"'] + a)).Malformed?
    ensures Gives(directive, cur + [' '] + (['"'] + a + "\n" + b) + rest, conf, Failed)
  {
    assert Unfold(0);
    var line := cur + ([' ', '"'] + a);
    assert cur + [' '] + (['"'] + a + "\n" + b) + rest == line + "\n" + (b + rest);
    ReadFirstLine(directive, line, b + rest, conf);
  }

  lemma ReadCutNext(step: nat, directive: string, s: string, later: string, conf: seq<string>)
    requires Plain(directive) && '\n' in s
    ensures Gives(directive, Continue(step, directive) + [' '] + Quotation(s) + later, conf, Failed)
  {
    HoldsContinue(step, directive);
    ReadCutWord(directive, Continue(step, directive), [directive, "+"], s, later, conf);
  }

  lemma {:induction false} ReadRemainingCut(step: nat, directive: string, cur: string, ws: seq<string>, y: nat,
                                            vs: seq<string>, t: string, conf: seq<string>)
    requires Plain(directive) && Holds(cur, ws) && |ws| >= 2 && ws[0] == directive
    requires !OneLineWords(vs) && Leaves(step, directive, y, vs, t)
    ensures Gives(directive, cur + t, conf, Failed)
    decreases |vs|
  {
    var s := vs[0];
    if y + |s| >= 80 {
      var q, rest := LeavesOverflows(step, directive, cur, y, vs, t);
      var next := Continue(step, directive) + [' '] + q;
      if '\n' in s {
        ReadCutNext(step, directive, s, rest, Extend(ws, conf));
      } else {
        HoldsNext(step, directive, s, conf);
        ReadRemainingCut(step, directive, next, [directive, "+", s], step + |directive| + 2 + |q| + 1, vs[1..], rest, Extend(ws, conf));
      }
      ReadHeld(directive, cur + t, cur, ws, next + rest, conf, Failed);
    } else {
      var q, rest := LeavesFits(step, directive, cur, y, vs, t);
      if '\n' in s {
        ReadCutWord(directive, cur, ws, s, rest, conf);
      } else {
        HoldsMore(cur, ws, s);
        ReadRemainingCut(step, directive, cur + [' '] + q, ws + [s], y + |q| + 1, vs[1..], rest, conf);
      }
    }
  }

  /** The first line when its first word is pushed to the next: a bare
      directive. */
  lemma ReadBare(step: nat, directive: string, value: seq<string>, conf: seq<string>)
    requires Plain(directive) && !FirstFits(step, directive, value)
    ensures Gives(directive, Written(step, directive, value), conf, Failed)
  {
    var cur := Spaces(step) + directive;
    HoldsDirective(step, directive);
    var t, rest := "\n", [];
    if value == [] {
      assert cur + t == cur + "\n" + rest;
    } else {
      t := Remaining(step, directive, step + |directive|, value);
      var q, later := LeavesOverflows(step, directive, cur, step + |directive|, value, t);
      rest := Continue(step, directive) + [' '] + q + later;
    }
    ReadHeld(directive, cur + t, cur, [directive], rest, conf, Failed);
  }

  ghost function Outcome(value: seq<string>, conf: seq<string>): Reading
    requires value != []
  {
    if !OneLineWords(value) then Failed
    else if value[0] == "+" then Value(conf + value[1..])
    else Value(value)
  }

  lemma OutcomeIs(value: seq<string>, conf: seq<string>)
    requires value != [] && '\n' !in value[0]
    ensures Outcome(value, conf) ==
            if OneLineWords(value[1..]) then Value((if value[0] == "+" then conf else [value[0]]) + value[1..]) else Failed
  {
    assert value == [value[0]] + value[1..];
  }

  lemma HoldsFirst(step: nat, directive: string, s: string)
    requires Plain(directive) && '\n' !in s
    ensures Holds(Spaces(step) + directive + [' '] + Quotation(s), [directive, s])
  {
    HoldsDirective(step, directive);
    HoldsMore(Spaces(step) + directive, [directive], s);
    assert [directive] + [s] == [directive, s];
  }

  lemma ReadGood(step: nat, directive: string, s: string, y: nat, vs: seq<string>, t: string, conf: seq<string>)
    requires Plain(directive) && '\n' !in s && Leaves(step, directive, y, vs, t)
    ensures Gives(directive, Spaces(step) + directive + [' '] + Quotation(s) + t, conf,
                  if OneLineWords(vs) then Value((if s == "+" then conf else [s]) + vs) else Failed)
  {
    HoldsFirst(step, directive, s);
    var cur := Spaces(step) + directive + [' '] + Quotation(s);
    if OneLineWords(vs) {
      ReadRemaining(step, directive, cur, [directive, s], y, vs, t, conf);
      assert [directive, s][2..] == [] && [directive, s][1..] == [s] && conf + [] == conf;
    } else {
      ReadRemainingCut(step, directive, cur, [directive, s], y, vs, t, conf);
    }
  }

  /** What reading gives otherwise. */
  lemma ReadFitting(step: nat, directive: string, value: seq<string>, conf: seq<string>)
    requires Plain(directive) && FirstFits(step, directive, value)
    ensures Gives(directive, Written(step, directive, value), conf, Outcome(value, conf))
  {
    var cur, t, s := Spaces(step) + directive, Remaining(step, directive, step + |directive|, value), value[0];
    var q, rest := LeavesFits(step, directive, cur, step + |directive|, value, t);
    if '\n' in s {
      HoldsDirective(step, directive);
      ReadCutWord(directive, cur, [directive], s, rest, conf);
    } else {
      ReadGood(step, directive, s, step + |directive| + |q| + 1, value[1..], rest, conf);
      OutcomeIs(value, conf);
    }
  }

  /** A list that was written is read back, whatever was configured before,
      exactly when its first word is not "+" and fits on the first line and no
      word contains a newline. */
  lemma VectorRoundTrip(step: nat, directive: string, value: seq<string>)
    requires Plain(directive)
    ensures (forall conf :: ReadText(directive, Written(step, directive, value), conf) == Value(value))
            <==> FirstFits(step, directive, value) && value[0] != "+" && OneLineWords(value)
  {
    assert Unfold(0);
    var none: seq<string> := [];
    var text := Written(step, directive, value);
    if !FirstFits(step, directive, value) {
      ReadBare(step, directive, value, none);
      assert ReadText(directive, text, none) == Failed;
    } else if value[0] != "+" && OneLineWords(value) {
      forall conf ensures ReadText(directive, text, conf) == Value(value) {
        ReadFitting(step, directive, value, conf);
      }
    } else {
      ReadFitting(step, directive, value, none);
      assert |none + value[1..]| < |value|;
      assert ReadText(directive, text, none) != Value(value);
    }
  }
}
