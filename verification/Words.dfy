/** Configuration lines: splitting a line into words, and quoting words so that
    they can be split again. */
module Words {
  import opened Folding

  predicate IsSpace(c: char) { c == ' ' || '\t' <= c <= '\r' }

  const VT: char := 11 as char
  const FF: char := 12 as char

  /** `split` either finds the words, or throws, or (at an unquoted vertical tab
      or newline) adds empty words for ever. */
  datatype Result = Found(words: seq<string>) | Malformed | Endless

  // ----- What a line means

  predicate IsBlank(c: char) { c == ' ' || c == '\t' || c == '\r' || c == FF }

  predicate EndsWord(c: char) { IsSpace(c) || c == '"' || c == '\\' }

  function WordLength(s: string): (n: nat)
    ensures n <= |s|
    ensures forall i :: 0 <= i < n ==> !EndsWord(s[i])
    ensures n < |s| ==> EndsWord(s[n])
  {
    if s == [] || EndsWord(s[0]) then 0 else 1 + WordLength(s[1..])
  }

  datatype Quoted = Closed(word: string, rest: string) | Unterminated

  /** The rest of a quoted word, after the opening quote. */
  ghost function Unquote(s: string): (q: Quoted)
    ensures q.Closed? ==> |q.rest| < |s|
    decreases |s|
  {
    if s == [] then Unterminated
    else if s[0] == '"' then Closed("", s[1..])
    else
      var t := if s[0] == '\\' then s[1..] else s;
      if t == [] then Unterminated
      else
        var q := Unquote(t[1..]);
        if q.Closed? then Closed([t[0]] + q.word, q.rest) else q
  }

  ghost function Prepend(ws: seq<string>, r: Result): Result {
    if r.Found? then Found(ws + r.words) else r
  }

  ghost function Meaning(s: string): Result
    decreases |s|
  {
    if s == [] then Found([])
    else if IsBlank(s[0]) then Meaning(s[1..])
    else if s[0] == '#' then Found([])
    else if s[0] == '"' then
      var q := Unquote(s[1..]);
      if q.Closed? then Prepend([q.word], Meaning(q.rest)) else Malformed
    else if s[0] == '\\' then Malformed
    else if WordLength(s) == 0 then Endless
    else Prepend([s[..WordLength(s)]], Meaning(s[WordLength(s)..]))
  }

  /** The column a line starts at: a tab goes to the next multiple of 8. */
  ghost function Column(s: string, from: nat): nat {
    if s == [] then from
    else if s[0] == ' ' then Column(s[1..], from + 1)
    else if s[0] == '\t' then Column(s[1..], (from / 8 + 1) * 8)
    else from
  }

  // ----- split

  /** One character of a quoted word, with or without a backslash. */
  lemma UnquoteOne(s: string, n: nat)
    requires s != [] && s[0] != '"' && n == (if s[0] == '\\' then 2 else 1) && n <= |s|
    ensures var q, u := Unquote(s), Unquote(s[n..]);
            q == if u.Closed? then Closed([s[n - 1]] + u.word, u.rest) else Unterminated
  {
    if s[0] == '\\' { assert s[1..][1..] == s[2..]; }
  }

  /** The quoted word that starts at `start` is `word` and what follows `pos`;
      folded. */
  ghost predicate UnquotedSoFar(line: string, start: nat, word: string, pos: nat)
  {
    start <= pos <= |line|
    && forall k {:trigger Unfold(k)} :: Unfold(k) ==>
         var q, u := Unquote(line[start..]), Unquote(line[pos..]);
         if u.Closed? then q == Closed(word + u.word, u.rest) else q.Unterminated?
  }

  lemma UnquotedNone(line: string, start: nat)
    requires start <= |line|
    ensures UnquotedSoFar(line, start, "", start)
  {
    var q := Unquote(line[start..]);
    if q.Closed? { assert "" + q.word == q.word; }
  }

  lemma UnquotedMore(line: string, start: nat, word: string, pos: nat, n: nat)
    requires UnquotedSoFar(line, start, word, pos) && pos < |line|
    requires line[pos] != '"' && n == (if line[pos] == '\\' then 2 else 1) && pos + n <= |line|
    ensures UnquotedSoFar(line, start, word + [line[pos + n - 1]], pos + n)
  {
    assert Unfold(0);
    UnquoteOne(line[pos..], n);
    assert line[pos..][n..] == line[pos + n..];
    var u := Unquote(line[pos + n..]);
    if u.Closed? {
      assert word + ([line[pos + n - 1]] + u.word) == word + [line[pos + n - 1]] + u.word;
    }
  }

  lemma UnquotedEnds(line: string, start: nat, word: string, pos: nat)
    requires UnquotedSoFar(line, start, word, pos) && pos < |line| && line[pos] == '"'
    ensures Unquote(line[start..]) == Closed(word, line[pos + 1..])
  {
    assert Unfold(0);
    assert line[pos..][1..] == line[pos + 1..];
    assert word + "" == word;
  }

  lemma UnquotedRunsOut(line: string, start: nat, word: string, pos: nat)
    requires UnquotedSoFar(line, start, word, pos)
    requires pos == |line| || (pos + 1 == |line| && line[pos] == '\\')
    ensures Unquote(line[start..]).Unterminated?
  {
    assert Unfold(0);
    if pos == |line| {
      assert line[pos..] == [];
    } else {
      assert line[pos..][1..] == [];
    }
  }

  method QuotedWord(line: string, start: nat) returns (word: string, pos: nat, ok: bool)
    requires start <= |line|
    ensures start <= pos <= |line|
    ensures ok <==> Unquote(line[start..]).Closed?
    ensures ok ==> start < pos && Unquote(line[start..]) == Closed(word, line[pos..])
  {
    word, pos := "", start;
    UnquotedNone(line, start);
    while pos < |line| && line[pos] != '"'
      invariant UnquotedSoFar(line, start, word, pos)
    {
      ghost var was := pos;
      if line[pos] == '\\' {
        pos := pos + 1;
        if pos >= |line| {
          UnquotedRunsOut(line, start, word, was);
          return word, pos, false;
        }
      }
      UnquotedMore(line, start, word, was, pos + 1 - was);
      word := word + [line[pos]];
      pos := pos + 1;
    }
    if pos >= |line| {
      UnquotedRunsOut(line, start, word, pos);
      return word, pos, false;
    }
    UnquotedEnds(line, start, word, pos);
    return word, pos + 1, true;
  }

  method PlainWord(line: string, pos: nat) returns (end: nat)
    requires pos <= |line|
    ensures pos <= end <= |line| && WordLength(line[pos..]) == end - pos
  {
    end := pos;
    while end < |line| && !EndsWord(line[end])
      invariant pos <= end <= |line|
      invariant WordLength(line[pos..]) == end - pos + WordLength(line[end..])
    {
      assert line[end..][1..] == line[end + 1..];
      end := end + 1;
    }
  }

  datatype Item = Word(word: string, end: nat) | Stop(result: Result)

  lemma QuotedFirst(s: string)
    requires s != [] && s[0] == '"' && Unquote(s[1..]).Closed?
    ensures Meaning(s) == Prepend([Unquote(s[1..]).word], Meaning(Unquote(s[1..]).rest))
  {
  }

  /** What `split` does at the start of a word. */
  method NextWord(line: string, pos: nat) returns (item: Item)
    requires pos < |line| && !IsBlank(line[pos])
    ensures item.Word? ==> pos < item.end <= |line| && Meaning(line[pos..]) == Prepend([item.word], Meaning(line[item.end..]))
    ensures item.Stop? ==> Meaning(line[pos..]) == item.result && (item.result.Found? ==> item.result.words == [])
  {
    ghost var s := line[pos..];
    var c := line[pos];
    if c == '#' {
      return Stop(Found([]));
    } else if c == '"' {
      assert s[1..] == line[pos + 1..];
      var word, end, ok := QuotedWord(line, pos + 1);
      if !ok { return Stop(Malformed); }
      QuotedFirst(s);
      return Word(word, end);
    } else if c == '\\' {
      return Stop(Malformed);
    } else {
      var end := PlainWord(line, pos);
      if end == pos { return Stop(Endless); }
      assert s[..end - pos] == line[pos..end] && s[end - pos..] == line[end..];
      return Word(line[pos..end], end);
    }
  }

  lemma PrependTwice(ws: seq<string>, w: string, r: Result)
    ensures Prepend(ws, Prepend([w], r)) == Prepend(ws + [w], r)
  {
    if r.Found? { assert ws + ([w] + r.words) == ws + [w] + r.words; }
  }

  /** The line means the words so far and what the rest means; folded. */
  ghost predicate SplitSoFar(line: string, bits: seq<string>, pos: nat) {
    pos <= |line|
    && forall k {:trigger Unfold(k)} :: Unfold(k) ==> Meaning(line) == Prepend(bits, Meaning(line[pos..]))
  }

  lemma SplitBlank(line: string, bits: seq<string>, pos: nat)
    requires SplitSoFar(line, bits, pos) && pos < |line| && IsBlank(line[pos])
    ensures SplitSoFar(line, bits, pos + 1)
  {
    assert Unfold(0);
    assert line[pos..][1..] == line[pos + 1..];
  }

  lemma SplitWord(line: string, bits: seq<string>, pos: nat, word: string, end: nat)
    requires SplitSoFar(line, bits, pos) && end <= |line| && Meaning(line[pos..]) == Prepend([word], Meaning(line[end..]))
    ensures SplitSoFar(line, bits + [word], end)
  {
    assert Unfold(0);
    PrependTwice(bits, word, Meaning(line[end..]));
  }

  lemma SplitStop(line: string, bits: seq<string>, pos: nat, result: Result)
    requires SplitSoFar(line, bits, pos) && Meaning(line[pos..]) == result && (result.Found? ==> result.words == [])
    ensures Meaning(line) == if result.Found? then Found(bits) else result
  {
    assert Unfold(0);
    assert bits + [] == bits;
  }

  /** The indentation, with tabs to the next multiple of 8. */
  method Indentation(line: string) returns (pos: nat, indent: nat)
    ensures SplitSoFar(line, [], pos) && indent == Column(line, 0)
  {
    pos, indent := 0, 0;
    assert SplitSoFar(line, [], 0) by { assert line[0..] == line; }
    while pos < |line| && (line[pos] == ' ' || line[pos] == '\t')
      invariant SplitSoFar(line, [], pos)
      invariant Column(line, 0) == Column(line[pos..], indent)
    {
      SplitBlank(line, [], pos);
      assert line[pos..][1..] == line[pos + 1..];
      if line[pos] == ' ' { indent := indent + 1; } else { indent := (indent + 8) / 8 * 8; }
      pos := pos + 1;
    }
  }

  method Split(line: string) returns (r: Result, indent: nat)
    ensures r == Meaning(line)
    ensures indent == Column(line, 0)
  {
    var pos: nat;
    pos, indent := Indentation(line);
    var bits: seq<string> := [];
    while pos < |line|
      invariant SplitSoFar(line, bits, pos)
      decreases |line| - pos
    {
      if IsBlank(line[pos]) {
        SplitBlank(line, bits, pos);
        pos := pos + 1;
      } else {
        var item := NextWord(line, pos);
        if item.Stop? {
          SplitStop(line, bits, pos, item.result);
          return if item.result.Found? then Found(bits) else item.result, indent;
        }
        SplitWord(line, bits, pos, item.word, item.end);
        bits := bits + [item.word];
        pos := item.end;
      }
    }
    SplitStop(line, bits, pos, Found([]));
    return Found(bits), indent;
  }

  // ----- When split ends

  datatype Mode = Between | InWord | InQuotes

  predicate Breaks(c: char) { c == VT || c == '\n' }

  /** Reading characters one by one, a vertical tab or newline comes up that is
      neither quoted nor in a comment nor after an error. */
  ghost predicate Stuck(s: string, mode: Mode)
    decreases |s|
  {
    if s == [] then false
    else if mode.InQuotes? then
      if s[0] == '"' then Stuck(s[1..], Between)
      else if s[0] == '\\' then |s| > 1 && Stuck(s[2..], InQuotes)
      else Stuck(s[1..], InQuotes)
    else if Breaks(s[0]) then true
    else if IsBlank(s[0]) then Stuck(s[1..], Between)
    else if s[0] == '"' then Stuck(s[1..], InQuotes)
    else if s[0] == '\\' || (s[0] == '#' && mode.Between?) then false
    else Stuck(s[1..], InWord)
  }

  /** The rest of a word makes no difference. */
  lemma {:induction false} StuckInWord(s: string)
    ensures Stuck(s, InWord) <==> Stuck(s[WordLength(s)..], Between)
    decreases |s|
  {
    if s != [] && !EndsWord(s[0]) {
      StuckInWord(s[1..]);
      assert s[WordLength(s)..] == s[1..][WordLength(s[1..])..];
    } else {
      assert s[WordLength(s)..] == s;
    }
  }

  lemma {:induction false} StuckInQuotes(s: string)
    ensures var q := Unquote(s);
            Stuck(s, InQuotes) <==> q.Closed? && Stuck(q.rest, Between)
    decreases |s|
  {
    if s != [] && s[0] != '"' {
      var t := if s[0] == '\\' then s[1..] else s;
      if t != [] {
        assert s[0] == '\\' ==> t[1..] == s[2..];
        StuckInQuotes(t[1..]);
      }
    }
  }

  /** `split` runs for ever exactly on the lines with such a character. */
  lemma {:induction false} EndlessIffStuck(s: string)
    ensures Meaning(s).Endless? <==> Stuck(s, Between)
    decreases |s|
  {
    if s == [] || s[0] == '#' || s[0] == '\\' {
    } else if IsBlank(s[0]) {
      EndlessIffStuck(s[1..]);
    } else if s[0] == '"' {
      StuckInQuotes(s[1..]);
      var q := Unquote(s[1..]);
      if q.Closed? { EndlessIffStuck(q.rest); }
    } else if WordLength(s) > 0 {
      var n := WordLength(s);
      assert s[n..] == s[1..][WordLength(s[1..])..];
      StuckInWord(s[1..]);
      EndlessIffStuck(s[n..]);
    }
  }

  /** Every vertical tab and newline is inside quotes. */
  ghost predicate BreaksQuoted(s: string, quoted: bool)
    decreases |s|
  {
    if s == [] then true
    else if s[0] == '"' then BreaksQuoted(s[1..], !quoted)
    else if quoted && s[0] == '\\' then |s| > 1 ==> BreaksQuoted(s[2..], true)
    else (quoted || !Breaks(s[0])) && BreaksQuoted(s[1..], quoted)
  }

  lemma {:induction false} QuotedNotStuck(s: string, mode: Mode)
    requires BreaksQuoted(s, mode.InQuotes?)
    ensures !Stuck(s, mode)
    decreases |s|
  {
    if s == [] {
    } else if mode.InQuotes? {
      if s[0] == '"' {
        QuotedNotStuck(s[1..], Between);
      } else if s[0] == '\\' {
        if |s| > 1 { QuotedNotStuck(s[2..], InQuotes); }
      } else {
        QuotedNotStuck(s[1..], InQuotes);
      }
    } else if IsBlank(s[0]) {
      QuotedNotStuck(s[1..], Between);
    } else if s[0] == '"' {
      QuotedNotStuck(s[1..], InQuotes);
    } else if !(s[0] == '\\' || (s[0] == '#' && mode.Between?)) {
      QuotedNotStuck(s[1..], InWord);
    }
  }

  /** So it ends on every line that has none of them outside quotes. */
  lemma TerminatesWithout(s: string)
    requires BreaksQuoted(s, false)
    ensures !Meaning(s).Endless?
  {
    EndlessIffStuck(s);
    QuotedNotStuck(s, Between);
  }

  // ----- quote

  predicate NeedsQuoting(s: string) {
    s == [] || s[0] == '#' || exists i :: 0 <= i < |s| && EndsWord(s[i])
  }

  ghost function Escaped(s: string): string {
    if s == [] then []
    else (if s[0] == '\\' || s[0] == '"' then ['\\', s[0]] else [s[0]]) + Escaped(s[1..])
  }

  ghost function Quotation(s: string): string {
    if NeedsQuoting(s) then ['"'] + Escaped(s) + ['"'] else s
  }

  lemma {:induction false} EscapedAppend(s: string, c: char)
    ensures Escaped(s + [c]) == Escaped(s) + if c == '\\' || c == '"' then ['\\', c] else [c]
  {
    if s == [] {
      assert s + [c] == [c] && [c][1..] == [];
    } else {
      assert (s + [c])[1..] == s[1..] + [c];
      EscapedAppend(s[1..], c);
    }
  }

  method Quote(s: string) returns (q: string)
    ensures q == Quotation(s)
  {
    var need := false;
    if |s| == 0 {
      need := true;
    } else if s[0] == '#' {
      need := true;
    } else {
      for i := 0 to |s|
        invariant need <==> exists k :: 0 <= k < i && EndsWord(s[k])
      {
        if IsSpace(s[i]) { need := true; }
        if s[i] == '\\' || s[i] == '"' { need := true; }
      }
    }
    if !need { return s; }
    q := ['"'];
    for i := 0 to |s|
      invariant q == ['"'] + Escaped(s[..i])
    {
      assert s[..i + 1] == s[..i] + [s[i]];
      EscapedAppend(s[..i], s[i]);
      if s[i] == '\\' || s[i] == '"' { q := q + ['\\']; }
      q := q + [s[i]];
    }
    assert s[..|s|] == s;
    q := q + ['"'];
  }

  ghost function QuotationList(vs: seq<string>): string {
    if vs == [] then [] else if |vs| == 1 then Quotation(vs[0]) else Quotation(vs[0]) + [' '] + QuotationList(vs[1..])
  }

  lemma {:induction false} QuotationListAppend(vs: seq<string>, s: string)
    ensures QuotationList(vs + [s]) == QuotationList(vs) + (if vs == [] then [] else [' ']) + Quotation(s)
  {
    if vs == [] {
      assert vs + [s] == [s];
    } else {
      assert (vs + [s])[1..] == vs[1..] + [s];
      QuotationListAppend(vs[1..], s);
    }
  }

  method QuoteList(vs: seq<string>) returns (text: string)
    ensures text == QuotationList(vs)
  {
    text := "";
    for n := 0 to |vs|
      invariant text == QuotationList(vs[..n])
    {
      assert vs[..n + 1] == vs[..n] + [vs[n]];
      QuotationListAppend(vs[..n], vs[n]);
      if n > 0 { text := text + [' ']; }
      var q := Quote(vs[n]);
      text := text + q;
    }
    assert vs[..|vs|] == vs;
  }

  // ----- Splitting what was quoted

  lemma {:induction false} UnquoteEscaped(s: string, rest: string)
    ensures Unquote(Escaped(s) + ['"'] + rest) == Closed(s, rest)
  {
    var t := Escaped(s) + ['"'] + rest;
    if s == [] {
      assert t[1..] == rest;
    } else {
      var u := Escaped(s[1..]) + ['"'] + rest;
      var head := if s[0] == '\\' || s[0] == '"' then ['\\', s[0]] else [s[0]];
      assert t == head + u;
      UnquoteOne(t, |head|);
      assert t[|head|..] == u;
      UnquoteEscaped(s[1..], rest);
      assert [s[0]] + s[1..] == s;
    }
  }

  lemma {:induction false} WordLengthIs(s: string, n: nat)
    requires n <= |s| && (forall i :: 0 <= i < n ==> !EndsWord(s[i])) && (n < |s| ==> EndsWord(s[n]))
    ensures WordLength(s) == n
  {
    if n > 0 { WordLengthIs(s[1..], n - 1); }
  }

  /** What can follow a word. */
  predicate Follows(rest: string) { rest == [] || rest[0] == ' ' }

  lemma PlainWordRead(s: string, rest: string)
    requires Follows(rest) && !NeedsQuoting(s)
    ensures Meaning(s + rest) == Prepend([s], Meaning(rest))
  {
    var t := s + rest;
    assert forall i :: 0 <= i < |s| ==> t[i] == s[i];
    WordLengthIs(t, |s|);
    assert t[..|s|] == s && t[|s|..] == rest;
    assert !EndsWord(t[0]);
  }

  lemma QuotedWordRead(s: string, rest: string)
    requires Follows(rest)
    ensures Meaning(Quotation(s) + rest) == Prepend([s], Meaning(rest))
  {
    if NeedsQuoting(s) {
      var t := ['"'] + Escaped(s) + ['"'] + rest;
      assert t[1..] == Escaped(s) + ['"'] + rest;
      UnquoteEscaped(s, rest);
      QuotedFirst(t);
    } else {
      PlainWordRead(s, rest);
    }
  }

  /** Splitting a quoted list gives the list back, whatever its words contain. */
  lemma {:induction false} QuoteSplitRoundTrip(vs: seq<string>)
    ensures Meaning(QuotationList(vs)) == Found(vs)
  {
    if vs != [] {
      QuoteSplitRoundTrip(vs[1..]);
      if |vs| == 1 {
        QuotedWordRead(vs[0], []);
        assert Quotation(vs[0]) + [] == Quotation(vs[0]);
        assert vs == [vs[0]] + [];
      } else {
        var rest := [' '] + QuotationList(vs[1..]);
        QuotedWordRead(vs[0], rest);
        assert QuotationList(vs) == Quotation(vs[0]) + rest;
        assert rest[1..] == QuotationList(vs[1..]);
        assert vs == [vs[0]] + vs[1..];
      }
    }
  }
}
