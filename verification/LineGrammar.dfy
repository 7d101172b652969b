/** Which lines `split` accepts, and as what: a grammar of lines, without
    reference to how they are read. */
module LineGrammar {
  import opened Words

  /** A blank, a bare word, or a quoted word as it is spelled and as it is meant. */
  datatype Piece = Gap(c: char) | Bare(word: string) | Enclosed(source: string, word: string)

  predicate IsBareChar(c: char) { c !in {' ', '\t', '\n', VT, FF, '\r', '"', '\\'} }

  /** `source` is `word` with backslashes before its quotes and backslashes, and
      before any other characters. */
  ghost predicate Spells(source: string, word: string) {
    if source == [] then word == []
    else if source[0] == '\\' then
      |source| > 1 && word != [] && source[1] == word[0] && Spells(source[2..], word[1..])
    else
      source[0] != '"' && word != [] && source[0] == word[0] && Spells(source[1..], word[1..])
  }

  ghost predicate WellFormed(p: Piece) {
    match p
    case Gap(c) => c in {' ', '\t', '\r', FF}
    case Bare(word) => word != [] && word[0] != '#' && forall i :: 0 <= i < |word| ==> IsBareChar(word[i])
    case Enclosed(source, word) => Spells(source, word)
  }

  /** Pieces, two bare words being apart, and perhaps a comment, which a bare word
      does not run into. */
  ghost predicate IsLine(ps: seq<Piece>, comment: string) {
    if ps == [] then comment == [] || comment[0] == '#'
    else
      WellFormed(ps[0]) && IsLine(ps[1..], comment)
      && (ps[0].Bare? ==> if |ps| > 1 then !ps[1].Bare? else comment == [])
  }

  ghost function Spelled(p: Piece): string {
    match p
    case Gap(c) => [c]
    case Bare(word) => word
    case Enclosed(source, _) => ['"'] + source + ['"']
  }

  ghost function Text(ps: seq<Piece>, comment: string): string {
    if ps == [] then comment else Spelled(ps[0]) + Text(ps[1..], comment)
  }

  ghost function WordsOf(ps: seq<Piece>): seq<string> {
    if ps == [] then [] else (if ps[0].Gap? then [] else [ps[0].word]) + WordsOf(ps[1..])
  }

  ghost predicate ParsesAs(s: string, ps: seq<Piece>, comment: string, ws: seq<string>) {
    IsLine(ps, comment) && s == Text(ps, comment) && ws == WordsOf(ps)
  }

  // ----- Lines of the grammar are read

  lemma {:induction false} SpelledIsUnquoted(source: string, word: string, rest: string)
    requires Spells(source, word)
    ensures Unquote(source + ['"'] + rest) == Closed(word, rest)
    decreases |source|
  {
    var t := source + ['"'] + rest;
    if source == [] {
      assert t[1..] == rest;
    } else {
      var n := if source[0] == '\\' then 2 else 1;
      UnquoteOne(t, n);
      assert t[n..] == source[n..] + ['"'] + rest;
      SpelledIsUnquoted(source[n..], word[1..], rest);
      assert word == [word[0]] + word[1..];
    }
  }

  /** What follows a bare word ends it. */
  lemma AfterBare(ps: seq<Piece>, comment: string)
    requires ps != [] && ps[0].Bare? && IsLine(ps, comment)
    ensures var t := Text(ps[1..], comment); t == [] || EndsWord(t[0])
  {
  }

  lemma BareIsRead(word: string, rest: string)
    requires WellFormed(Bare(word)) && (rest == [] || EndsWord(rest[0]))
    ensures Meaning(word + rest) == Prepend([word], Meaning(rest))
  {
    var s := word + rest;
    assert s[..|word|] == word && s[|word|..] == rest;
    assert forall i :: 0 <= i < |word| ==> s[i] == word[i] && IsBareChar(word[i]);
    WordLengthIs(s, |word|);
  }

  lemma EnclosedIsRead(source: string, word: string, rest: string)
    requires Spells(source, word)
    ensures Meaning(['"'] + source + ['"'] + rest) == Prepend([word], Meaning(rest))
  {
    var s := ['"'] + source + ['"'] + rest;
    SpelledIsUnquoted(source, word, rest);
    assert s[1..] == source + ['"'] + rest;
    QuotedFirst(s);
  }

  lemma {:induction false} LineIsRead(ps: seq<Piece>, comment: string)
    requires IsLine(ps, comment)
    ensures Meaning(Text(ps, comment)) == Found(WordsOf(ps))
    decreases |ps|
  {
    if ps != [] {
      LineIsRead(ps[1..], comment);
      var rest := Text(ps[1..], comment);
      match ps[0]
      case Gap(c) =>
        assert ([c] + rest)[1..] == rest;
      case Bare(word) =>
        AfterBare(ps, comment);
        BareIsRead(word, rest);
      case Enclosed(source, word) =>
        EnclosedIsRead(source, word, rest);
    }
  }

  // ----- Lines that are read are of the grammar

  lemma SpellsMore(head: string, more: string, word: string)
    requires Spells(more, word)
    requires (|head| == 1 && head[0] != '"' && head[0] != '\\') || (|head| == 2 && head[0] == '\\')
    ensures Spells(head + more, [head[|head| - 1]] + word)
  {
    assert (head + more)[|head|..] == more;
  }

  lemma Rejoin(s: string, n: nat, more: string, rest: string)
    requires n <= |s| && s[n..] == more + ['"'] + rest
    ensures s == s[..n] + more + ['"'] + rest
  {
    assert s == s[..n] + s[n..];
  }

  lemma {:induction false} UnquotedIsSpelled(s: string) returns (source: string)
    requires Unquote(s).Closed?
    ensures s == source + ['"'] + Unquote(s).rest && Spells(source, Unquote(s).word)
    decreases |s|
  {
    if s[0] == '"' {
      source := [];
      assert s == [s[0]] + s[1..];
    } else {
      var n := if s[0] == '\\' then 2 else 1;
      assert n <= |s|;
      UnquoteOne(s, n);
      var more := UnquotedIsSpelled(s[n..]);
      source := s[..n] + more;
      SpellsMore(s[..n], more, Unquote(s[n..]).word);
      Rejoin(s, n, more, Unquote(s[n..]).rest);
    }
  }

  lemma BareStart(ps: seq<Piece>, comment: string)
    requires ps != [] && ps[0].Bare? && IsLine(ps, comment)
    ensures Text(ps, comment) != [] && !EndsWord(Text(ps, comment)[0])
  {
    assert IsBareChar(ps[0].word[0]) && Text(ps, comment)[0] == ps[0].word[0];
  }

  lemma ParseMore(p: Piece, ps: seq<Piece>, comment: string, rest: string, ws: seq<string>)
    requires ParsesAs(rest, ps, comment, ws) && WellFormed(p)
    requires p.Bare? ==> rest == [] || EndsWord(rest[0])
    ensures ParsesAs(Spelled(p) + rest, [p] + ps, comment, (if p.Gap? then [] else [p.word]) + ws)
  {
    assert ([p] + ps)[1..] == ps;
    if ps != [] && ps[0].Bare? { BareStart(ps, comment); }
  }

  /** The rest of a line after its first piece, and what it is parsed as. */
  ghost predicate RestParses(rest: string, ps: seq<Piece>, comment: string) {
    Meaning(rest).Found? && ParsesAs(rest, ps, comment, Meaning(rest).words)
  }

  lemma GapFirst(s: string, ps: seq<Piece>, comment: string)
    requires s != [] && IsBlank(s[0]) && RestParses(s[1..], ps, comment)
    ensures RestParses(s, [Gap(s[0])] + ps, comment)
  {
    ParseMore(Gap(s[0]), ps, comment, s[1..], Meaning(s[1..]).words);
    assert s == [s[0]] + s[1..];
  }

  lemma Enclosing(s: string, source: string, rest: string)
    requires s != [] && s[0] == '"' && s[1..] == source + ['"'] + rest
    ensures s == ['"'] + source + ['"'] + rest
  {
  }

  lemma EnclosedFirst(s: string, ps: seq<Piece>, comment: string) returns (p: Piece)
    requires s != [] && s[0] == '"' && Unquote(s[1..]).Closed? && RestParses(Unquote(s[1..]).rest, ps, comment)
    ensures RestParses(s, [p] + ps, comment)
  {
    var q := Unquote(s[1..]);
    QuotedFirst(s);
    var source := UnquotedIsSpelled(s[1..]);
    p := Enclosed(source, q.word);
    ParseMore(p, ps, comment, q.rest, Meaning(q.rest).words);
    Enclosing(s, source, q.rest);
  }

  lemma BareFirst(s: string, ps: seq<Piece>, comment: string)
    requires s != [] && s[0] != '#' && WordLength(s) > 0 && RestParses(s[WordLength(s)..], ps, comment)
    ensures RestParses(s, [Bare(s[..WordLength(s)])] + ps, comment)
  {
    var n := WordLength(s);
    assert s == s[..n] + s[n..];
    assert Meaning(s) == Prepend([s[..n]], Meaning(s[n..]));
    ParseMore(Bare(s[..n]), ps, comment, s[n..], Meaning(s[n..]).words);
  }

  lemma {:induction false} ReadIsLine(s: string) returns (ps: seq<Piece>, comment: string)
    requires Meaning(s).Found?
    ensures RestParses(s, ps, comment)
    decreases |s|
  {
    if s == [] || s[0] == '#' {
      ps, comment := [], s;
    } else if IsBlank(s[0]) {
      ps, comment := ReadIsLine(s[1..]);
      GapFirst(s, ps, comment);
      ps := [Gap(s[0])] + ps;
    } else if s[0] == '"' {
      ps, comment := ReadIsLine(Unquote(s[1..]).rest);
      var p := EnclosedFirst(s, ps, comment);
      ps := [p] + ps;
    } else {
      ps, comment := ReadIsLine(s[WordLength(s)..]);
      BareFirst(s, ps, comment);
      ps := [Bare(s[..WordLength(s)])] + ps;
    }
  }

  /** A line is split into words just if it is of the grammar, and into those that
      the grammar gives it: blanks, bare and quoted words, and a comment, which
      ends the line whatever is in it. */
  lemma SplitIff(s: string, ws: seq<string>)
    ensures Meaning(s) == Found(ws) <==> exists ps, comment :: ParsesAs(s, ps, comment, ws)
  {
    if Meaning(s) == Found(ws) {
      var ps, comment := ReadIsLine(s);
    }
    if ps, comment :| ParsesAs(s, ps, comment, ws) {
      LineIsRead(ps, comment);
    }
  }

  // ----- What needs quoting

  lemma {:induction false} SpelledIsLonger(source: string, word: string)
    requires Spells(source, word)
    ensures |source| >= |word|
    decreases |source|
  {
    if source != [] { SpelledIsLonger(source[if source[0] == '\\' then 2 else 1..], word[1..]); }
  }

  /** A line is longer than its only word, unless it is that word, bare. */
  lemma {:induction false} LineIsLonger(ps: seq<Piece>, comment: string, w: string)
    requires IsLine(ps, comment) && WordsOf(ps) == [w]
    ensures |Text(ps, comment)| >= |w|
    ensures |Text(ps, comment)| == |w| ==> WellFormed(Bare(w))
    decreases |ps|
  {
    match ps[0]
    case Gap(_) => LineIsLonger(ps[1..], comment, w);
    case Bare(word) => assert WordsOf(ps)[0] == word;
    case Enclosed(source, word) =>
      SpelledIsLonger(source, word);
      assert WordsOf(ps)[0] == word;
  }

  /** A word is written without quotes just if it would then be read as it is. */
  lemma BareIff(w: string)
    ensures Quotation(w) == w <==> Meaning(w) == Found([w])
  {
    QuotationIsLonger(w);
    if Meaning(w) == Found([w]) { ReadAsItself(w); }
    if !NeedsQuoting(w) {
      assert w + [] == w && [w] + [] == [w];
      PlainWordRead(w, []);
    }
  }

  lemma QuotationIsLonger(w: string)
    ensures Quotation(w) == w <==> !NeedsQuoting(w)
  {
    EscapedIsLonger(w);
  }

  lemma ReadAsItself(w: string)
    requires Meaning(w) == Found([w])
    ensures !NeedsQuoting(w)
  {
    SplitIff(w, [w]);
    var ps, comment :| ParsesAs(w, ps, comment, [w]);
    LineIsLonger(ps, comment, w);
    BareNeedsNone(w);
  }

  lemma BareNeedsNone(w: string)
    requires WellFormed(Bare(w))
    ensures !NeedsQuoting(w)
  {
    forall i | 0 <= i < |w| ensures !EndsWord(w[i]) {
      assert IsBareChar(w[i]);
    }
  }

  lemma {:induction false} EscapedIsLonger(w: string)
    ensures |Escaped(w)| >= |w|
  {
    if w != [] { EscapedIsLonger(w[1..]); }
  }

  // ----- Indentation

  ghost predicate IsIndentation(p: string) { forall i :: 0 <= i < |p| ==> p[i] == ' ' || p[i] == '\t' }

  lemma {:induction false} ColumnOn(p: string, s: string, from: nat)
    requires IsIndentation(p)
    ensures Column(p + s, from) == Column(s, Column(p, from))
  {
    if p == [] {
      assert p + s == s;
    } else {
      assert (p + s)[1..] == p[1..] + s && (p + s)[0] == p[0];
      ColumnOn(p[1..], s, if p[0] == ' ' then from + 1 else (from / 8 + 1) * 8);
    }
  }

  /** A space is one column wide, a tab goes to the next multiple of 8, and
      anything else is not indentation. */
  lemma TabStops(p: string, s: string)
    requires IsIndentation(p)
    ensures Column([], 0) == 0
    ensures Column(p + [' '], 0) == Column(p, 0) + 1
    ensures var c := Column(p + ['\t'], 0); c % 8 == 0 && Column(p, 0) < c <= Column(p, 0) + 8
    ensures s != [] && s[0] != ' ' && s[0] != '\t' ==> Column(p + s, 0) == Column(p, 0)
  {
    ColumnOn(p, [' '], 0);
    ColumnOn(p, ['\t'], 0);
    ColumnOn(p, s, 0);
    assert ['\t'][1..] == [] && [' '][1..] == [];
  }
}
