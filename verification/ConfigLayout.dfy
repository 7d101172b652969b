/** The indentation-driven structure of a configuration file: how the level of
    each line is placed, and which host or volume it applies to. */
module ConfigLayout {
  import opened Common
  import opened Folding

  /** Levels are bit positions: 0 is LEVEL_TOP, 1 LEVEL_HOST, 2 LEVEL_VOLUME. */
  type Level = nat

  datatype Kind = Anywhere | HostOnly | VolumeOnly

  datatype Directive = Directive(kind: Kind, acceptable: set<Level>, introduces: Option<Level>)

  /** The constructors of the directive classes: only `host` and `volume`
      introduce a level, each the one after its own. */
  ghost predicate Declared(d: Directive) {
    d.acceptable <= {0, 1, 2}
    && (d.introduces.Some? ==> d.introduces.value in {1, 2} && d.acceptable == {d.introduces.value - 1})
    && (d.introduces == Some(1) ==> d.kind.Anywhere?)
    && (d.introduces == Some(2) ==> d.kind.HostOnly?)
    && (d.kind.HostOnly? ==> d.acceptable <= {1, 2})
    && (d.kind.VolumeOnly? ==> d.acceptable == {2})
  }

  /** A line that is not blank: its indentation, its directive if that is known,
      and whether its arguments are in order. */
  datatype Line = Line(indent: nat, directive: Option<Directive>, wellFormed: bool)

  /** A host or volume is named after the line that defines it. */
  datatype Context = Root | HostAt(line: nat) | VolumeAt(line: nat)

  // ----- Indent

  ghost predicate Increasing(stack: seq<nat>) {
    stack != [] && stack[0] == 0 && forall i, j :: 0 <= i < j < |stack| ==> stack[i] < stack[j]
  }

  /** The level of a line, unless there is none or it is not acceptable. The
      stack is cut back to the matching entry, or extended. */
  ghost predicate Checked(acceptable: set<Level>, indent: nat, stack: seq<nat>, pending: Option<Level>,
                          level: Option<Level>, stack': seq<nat>, pending': Option<Level>)
    requires stack != [] && stack' != []
  {
    if Fits(indent, stack, pending) then
      pending' == None && stack'[|stack'| - 1] == indent
      && level == (if |stack'| - 1 in acceptable then Some(|stack'| - 1) else None)
      && (if indent in stack then |stack'| <= |stack| && stack' == stack[..|stack'|] else stack' == stack + [indent])
    else
      level == None && stack' == stack && pending' == pending
  }

  ghost predicate Fits(indent: nat, stack: seq<nat>, pending: Option<Level>)
    requires stack != []
  {
    indent in stack || (pending.Some? && indent > stack[|stack| - 1])
  }

  class Indent {
    var stack: seq<nat>
    var newLevel: Option<Level>

    constructor ()
      ensures stack == [0] && newLevel == None
    {
      new;
      Clear();
    }

    method Clear()
      modifies this
      ensures stack == [0] && newLevel == None
    {
      stack, newLevel := [0], None;
    }

    method Check(acceptable: set<Level>, indent: nat) returns (level: Option<Level>)
      requires Increasing(stack) && (newLevel.Some? ==> newLevel.value == |stack|)
      modifies this
      ensures Increasing(stack)
      ensures Checked(acceptable, indent, old(stack), old(newLevel), level, stack, newLevel)
    {
      for i := 0 to |stack|
        invariant stack == old(stack) && newLevel == old(newLevel)
        invariant forall k :: 0 <= k < i ==> stack[k] != indent
      {
        if stack[i] == indent {
          stack := stack[..i + 1];
          newLevel := None;
          return if i in acceptable then Some(i) else None;
        }
      }
      if newLevel.Some? && indent > stack[|stack| - 1] {
        var l := newLevel.value;
        stack := stack + [indent];
        newLevel := None;
        return if l in acceptable then Some(l) else None;
      }
      return None;
    }

    method Introduce(n: Option<Level>)
      modifies this`newLevel
      ensures newLevel == n
    {
      newLevel := n;
    }
  }

  // ----- What the layout means

  /** The last line before `k` that is indented less than `indent`. */
  ghost function OwnerBefore(lines: seq<Line>, k: nat, indent: nat): (j: Option<nat>)
    requires k <= |lines|
    ensures j.Some? ==> j.value < k && lines[j.value].indent < indent
  {
    if k == 0 then None
    else if lines[k - 1].indent < indent then Some(k - 1)
    else OwnerBefore(lines, k - 1, indent)
  }

  /** The line whose section line `k` is in. */
  ghost function Owner(lines: seq<Line>, k: nat): Option<nat>
    requires k < |lines|
  {
    OwnerBefore(lines, k, lines[k].indent)
  }

  ghost function Depth(lines: seq<Line>, k: nat): nat
    requires k < |lines|
  {
    match Owner(lines, k)
    case None => 0
    case Some(j) => 1 + Depth(lines, j)
  }

  /** What line `k` applies to, by its layout alone: the root if it is in no
      section, else the host or the volume that its owner defines. */
  ghost function LayoutContext(lines: seq<Line>, k: nat): Context
    requires k < |lines|
  {
    match Owner(lines, k)
    case None => Root
    case Some(j) => if Owner(lines, j).None? then HostAt(j) else VolumeAt(j)
  }

  /** The host that goes with it. */
  ghost function LayoutHost(lines: seq<Line>, k: nat): Option<nat>
    requires k < |lines|
  {
    match Owner(lines, k)
    case None => None
    case Some(j) => if Owner(lines, j).Some? then Owner(lines, j) else Some(j)
  }

  /** A line is not indented, or it is in the section of a line that may have one
      and is indented like the first line there. */
  ghost predicate Consistent(lines: seq<Line>, k: nat)
    requires k < |lines|
  {
    match Owner(lines, k)
    case None => lines[k].indent == 0
    case Some(j) => lines[j].directive.Some? && lines[j].directive.value.introduces.Some?
                    && lines[j + 1].indent == lines[k].indent
  }

  ghost predicate InPlace(lines: seq<Line>, k: nat)
    requires k < |lines| && lines[k].directive.Some?
  {
    Consistent(lines, k) && Depth(lines, k) in lines[k].directive.value.acceptable
  }

  /** A line that is to be accepted; folded. */
  ghost predicate Proper(lines: seq<Line>, k: nat)
    requires k < |lines|
  {
    forall z {:trigger Unfold(z)} :: Unfold(z) ==>
      lines[k].directive.Some? && InPlace(lines, k) && lines[k].wellFormed
  }

  lemma ProperIff(lines: seq<Line>, k: nat)
    requires k < |lines|
    ensures Proper(lines, k) <==> lines[k].directive.Some? && InPlace(lines, k) && lines[k].wellFormed
  {
    assert Unfold(0);
  }

  ghost predicate AllProper(lines: seq<Line>, n: nat)
    requires n <= |lines|
  {
    forall k :: 0 <= k < n ==>
      Proper(lines, k) && lines[k].directive.Some? && Declared(lines[k].directive.value)
  }

  /** In a proper file the context of a line is a host where there is a host
      directive, and a volume where there is a volume directive; and every
      directive has the context it is for, so it never looks into a host or
      volume that is not there. */
  lemma ContextPresent(lines: seq<Line>, k: nat)
    requires k < |lines| && AllProper(lines, k + 1)
    ensures lines[k].directive.Some?
    ensures var d, context, host := lines[k].directive.value, LayoutContext(lines, k), LayoutHost(lines, k);
            (context.HostAt? ==> context.line < k && Introduces(lines[context.line]) == Some(1) && host == Some(context.line))
            && (context.VolumeAt? ==> context.line < k && Introduces(lines[context.line]) == Some(2))
            && (host.Some? ==> host.value < k && Introduces(lines[host.value]) == Some(1))
            && (d.kind.HostOnly? ==> host.Some?)
            && (d.kind.VolumeOnly? ==> context.VolumeAt?)
            && (d.introduces == Some(2) ==> context.HostAt?)
  {
    assert Unfold(0);
    assert Proper(lines, k);
    if Owner(lines, k).Some? {
      var j := Owner(lines, k).value;
      assert Proper(lines, j);
      if Owner(lines, j).Some? {
        var i := Owner(lines, j).value;
        assert Proper(lines, i);
      }
    }
  }

  lemma {:induction false} OwnerIs(lines: seq<Line>, k: nat, indent: nat, j: nat)
    requires j < k <= |lines| && lines[j].indent < indent && forall i :: j < i < k ==> indent <= lines[i].indent
    ensures OwnerBefore(lines, k, indent) == Some(j)
    decreases k
  {
    if j < k - 1 { OwnerIs(lines, k - 1, indent, j); }
  }

  /** No line between `j` and `k` is indented less than line `k`. */
  ghost predicate NoneLess(lines: seq<Line>, j: nat, k: nat)
    requires k < |lines|
  {
    forall i :: j < i < k ==> lines[k].indent <= lines[i].indent
  }

  lemma OwnerIff(lines: seq<Line>, k: nat)
    requires k < |lines|
    ensures forall j: nat :: Owner(lines, k) == Some(j) <==> j < k && lines[j].indent < lines[k].indent && NoneLess(lines, j, k)
    ensures Owner(lines, k).None? <==> forall j :: 0 <= j < k ==> lines[k].indent <= lines[j].indent
  {
    OwnedSince(lines, k, lines[k].indent);
    forall j: nat | j < k && lines[j].indent < lines[k].indent && NoneLess(lines, j, k) ensures Owner(lines, k) == Some(j) {
      OwnerIs(lines, k, lines[k].indent, j);
    }
    if Owner(lines, k).None? { NoOwner(lines, k, lines[k].indent); }
  }

  lemma {:induction false} NoOwner(lines: seq<Line>, k: nat, indent: nat)
    requires k <= |lines| && OwnerBefore(lines, k, indent).None?
    ensures forall j :: 0 <= j < k ==> indent <= lines[j].indent
  {
    if k > 0 { NoOwner(lines, k - 1, indent); }
  }

  /** In a proper file, what a line applies to can be told by looking back from
      it: an unindented line applies to the root; another one to the host that
      the last less indented line defines, if that is not indented, and else to
      the volume that it defines. */
  lemma ContextIff(lines: seq<Line>, k: nat)
    requires k < |lines| && AllProper(lines, k + 1)
    ensures LayoutContext(lines, k) == Root <==> lines[k].indent == 0
    ensures forall h: nat :: LayoutContext(lines, k) == HostAt(h) <==>
              h < k && 0 == lines[h].indent < lines[k].indent && NoneLess(lines, h, k)
    ensures forall v: nat :: LayoutContext(lines, k) == VolumeAt(v) <==>
              v < k && 0 < lines[v].indent < lines[k].indent && NoneLess(lines, v, k)
  {
    OwnerIff(lines, k);
    assert Proper(lines, k);
    ProperIff(lines, k);
    if Owner(lines, k).Some? {
      var j := Owner(lines, k).value;
      OwnerIff(lines, j);
      assert Proper(lines, j);
      ProperIff(lines, j);
    }
  }

  /** `h` is the last unindented line before `k`, which is indented. */
  ghost predicate LastUnindented(lines: seq<Line>, h: nat, k: nat)
    requires k < |lines|
  {
    h < k && lines[h].indent == 0 && forall i :: h < i <= k ==> 0 < lines[i].indent
  }

  lemma HostUnindented(lines: seq<Line>, h: nat)
    requires h < |lines| && AllProper(lines, h + 1) && Introduces(lines[h]) == Some(1)
    ensures lines[h].indent == 0
  {
    assert Proper(lines, h);
    ProperIff(lines, h);
  }

  lemma OwnerBetween(lines: seq<Line>, k: nat, j: nat)
    requires k < |lines| && Owner(lines, k) == Some(j)
    ensures forall i :: j < i <= k ==> lines[j].indent < lines[i].indent
  {
    OwnedSince(lines, k, lines[k].indent);
  }

  lemma HostFound(lines: seq<Line>, k: nat)
    requires k < |lines| && AllProper(lines, k + 1)
    ensures LayoutHost(lines, k).None? ==> lines[k].indent == 0
    ensures LayoutHost(lines, k).Some? ==> LastUnindented(lines, LayoutHost(lines, k).value, k)
  {
    if Owner(lines, k).Some? {
      var j := Owner(lines, k).value;
      ContextPresent(lines, k);
      HostUnindented(lines, LayoutHost(lines, k).value);
      OwnerBetween(lines, k, j);
      if Owner(lines, j).Some? { OwnerBetween(lines, j, Owner(lines, j).value); }
    } else {
      assert Proper(lines, k);
      ProperIff(lines, k);
    }
  }

  /** And the host is that of the last line before that is not indented. */
  lemma HostIff(lines: seq<Line>, k: nat)
    requires k < |lines| && AllProper(lines, k + 1)
    ensures forall h: nat :: LayoutHost(lines, k) == Some(h) <==> LastUnindented(lines, h, k)
  {
    HostFound(lines, k);
  }

  lemma {:induction false} OwnerOfPrefix(some: seq<Line>, lines: seq<Line>, k: nat, indent: nat)
    requires k <= |some| && some <= lines
    ensures OwnerBefore(lines, k, indent) == OwnerBefore(some, k, indent)
  {
    if k > 0 {
      OwnerOfPrefix(some, lines, k - 1, indent);
    }
  }

  lemma {:induction false} DepthOfPrefix(some: seq<Line>, lines: seq<Line>, k: nat)
    requires k < |some| && some <= lines
    ensures Owner(lines, k) == Owner(some, k) && Depth(lines, k) == Depth(some, k)
  {
    OwnerOfPrefix(some, lines, k, lines[k].indent);
    match Owner(some, k)
    case None =>
    case Some(j) => DepthOfPrefix(some, lines, j);
  }

  /** Later lines do not change what an earlier one means. */
  lemma MeaningOfPrefix(some: seq<Line>, lines: seq<Line>, k: nat)
    requires k < |some| && some <= lines
    ensures LayoutContext(lines, k) == LayoutContext(some, k) && LayoutHost(lines, k) == LayoutHost(some, k)
    ensures Proper(lines, k) == Proper(some, k)
  {
    assert Unfold(0);
    DepthOfPrefix(some, lines, k);
    if Owner(some, k).Some? { DepthOfPrefix(some, lines, Owner(some, k).value); }
  }

  // ----- The open sections

  ghost function Introduces(line: Line): Option<Level> {
    if line.directive.Some? then line.directive.value.introduces else None
  }

  /** For each entry of the stack but the first there is the line that opened the
      section, and the lines since are in it. */
  ghost predicate Sections(lines: seq<Line>, stack: seq<nat>, openers: seq<nat>) {
    Increasing(stack) && |openers| == |stack| <= 3
    && (lines == [] ==> |stack| == 1) && (lines != [] ==> lines[|lines| - 1].indent == stack[|stack| - 1])
    && forall k {:trigger Unfold(k)} :: Unfold(k) ==>
         (|stack| >= 2 ==> Section(lines, openers[1], 1, 0, stack[1]))
         && (|stack| == 3 ==> Section(lines, openers[2], 2, stack[1], stack[2]) && openers[1] < openers[2])
  }

  ghost predicate Section(lines: seq<Line>, opener: nat, level: Level, outer: nat, inner: nat) {
    opener + 1 < |lines| && Introduces(lines[opener]) == Some(level)
    && lines[opener].indent == outer && lines[opener + 1].indent == inner
    && forall i :: opener < i < |lines| ==> inner <= lines[i].indent
  }

  ghost predicate Open(lines: seq<Line>, j: nat) {
    j + 1 < |lines| && lines[j].indent < lines[j + 1].indent
    && forall i :: j < i < |lines| ==> lines[j + 1].indent <= lines[i].indent
  }

  /** And no open section is missing. */
  ghost predicate NoneMissing(lines: seq<Line>, openers: seq<nat>) {
    forall k {:trigger Unfold(k)} :: Unfold(k) ==>
      forall j: nat :: Open(lines, j) ==> exists i :: 1 <= i < |openers| && openers[i] == j
  }

  lemma NothingGoesMissing(lines: seq<Line>, stack: seq<nat>, openers: seq<nat>, line: Line, stack': seq<nat>,
                           openers': seq<nat>)
    requires Sections(lines, stack, openers) && NoneMissing(lines, openers) && Increasing(stack')
    requires stack'[|stack'| - 1] == line.indent && |openers'| == |stack'|
    requires (stack' <= stack && openers' <= openers)
             || (lines != [] && stack' == stack + [line.indent] && openers' == openers + [|lines| - 1])
    ensures NoneMissing(lines + [line], openers')
  {
    assert Unfold(0);
    var now := lines + [line];
    forall j: nat | Open(now, j) ensures exists i :: 1 <= i < |openers'| && openers'[i] == j {
      if j + 1 < |lines| {
        assert forall i :: j < i < |lines| ==> now[i] == lines[i];
        assert Open(lines, j);
        var i :| 1 <= i < |openers| && openers[i] == j;
        assert i == 1 || i == 2;
        assert now[|lines|] == line && stack[i] <= line.indent;
        assert openers'[i] == j;
      } else {
        assert stack[|stack| - 1] < line.indent;
        assert openers'[|openers|] == j;
      }
    }
  }

  /** A line indented like one of the open sections, or the root, ends the
      sections further in. */
  lemma Resumed(lines: seq<Line>, stack: seq<nat>, openers: seq<nat>, line: Line, size: nat)
    requires Sections(lines, stack, openers) && 1 <= size <= |stack| && stack[size - 1] == line.indent
    ensures Sections(lines + [line], stack[..size], openers[..size])
  {
    assert Unfold(0);
    if size >= 2 { assert Section(lines + [line], openers[1], 1, 0, stack[1]); }
    if size == 3 { assert Section(lines + [line], openers[2], 2, stack[1], stack[2]); }
  }

  /** A line indented more than one that may have a section begins that section. */
  lemma Begun(lines: seq<Line>, stack: seq<nat>, openers: seq<nat>, line: Line)
    requires Sections(lines, stack, openers) && lines != []
    requires Introduces(lines[|lines| - 1]) == Some(|stack|) && |stack| <= 2 && line.indent > stack[|stack| - 1]
    ensures Sections(lines + [line], stack + [line.indent], openers + [|lines| - 1])
  {
    assert Unfold(0);
    var now, n := lines + [line], |lines|;
    if |stack| == 1 {
      assert Section(now, n - 1, 1, 0, line.indent);
    } else {
      assert Section(now, openers[1], 1, 0, stack[1]);
      assert Section(now, n - 1, 2, stack[1], line.indent);
    }
  }

  /** What the last line applies to, told from the opening lines. */
  ghost predicate PlacedAt(lines: seq<Line>, level: Level, openers: seq<nat>)
    requires lines != [] && level < |openers|
  {
    Depth(lines, |lines| - 1) == level
    && LayoutContext(lines, |lines| - 1)
       == (if level == 0 then Root else if level == 1 then HostAt(openers[1]) else VolumeAt(openers[level]))
    && LayoutHost(lines, |lines| - 1) == (if level == 0 then None else Some(openers[1]))
  }

  /** The owner of a line is the one that opened the last section. */
  lemma SectionOwner(lines: seq<Line>, stack: seq<nat>, openers: seq<nat>)
    requires lines != [] && Sections(lines, stack, openers)
    ensures var n, level := |lines| - 1, |stack| - 1;
            Consistent(lines, n) && Depth(lines, n) == level && PlacedAt(lines, level, openers)
  {
    assert Unfold(0);
    var n := |lines| - 1;
    if |stack| == 1 {
    } else {
      OwnerIs(lines, n, stack[|stack| - 1], openers[|stack| - 1]);
      assert Depth(lines, openers[1]) == 0;
      if |stack| == 3 {
        OwnerIs(lines, openers[2], stack[1], openers[1]);
        assert Depth(lines, openers[2]) == 1;
      }
    }
  }

  ghost function NextOpeners(openers: seq<nat>, size: nat, last: int): seq<nat>
    requires size <= |openers| || last >= 0
  {
    if size <= |openers| then openers[..size] else openers + [last]
  }

  /** Where `check` finds a place for a line, the layout has it there too. */
  lemma Located(lines: seq<Line>, stack: seq<nat>, openers: seq<nat>, line: Line, stack': seq<nat>)
    requires Sections(lines, stack, openers) && NoneMissing(lines, openers) && Increasing(stack')
    requires stack'[|stack'| - 1] == line.indent
    requires (line.indent in stack && |stack'| <= |stack| && stack' == stack[..|stack'|])
             || (lines != [] && Introduces(lines[|lines| - 1]) == Some(|stack|) && |stack| <= 2
                 && line.indent > stack[|stack| - 1] && stack' == stack + [line.indent])
    ensures var now, openers' := lines + [line], NextOpeners(openers, |stack'|, |lines| - 1);
            Sections(now, stack', openers') && NoneMissing(now, openers')
  {
    if |stack'| <= |stack| {
      Resumed(lines, stack, openers, line, |stack'|);
    } else {
      Begun(lines, stack, openers, line);
    }
    NothingGoesMissing(lines, stack, openers, line, stack', NextOpeners(openers, |stack'|, |lines| - 1));
  }

  /** Where the layout has a place for a line, `check` finds it. */
  lemma PlaceFound(lines: seq<Line>, stack: seq<nat>, openers: seq<nat>, line: Line)
    requires Sections(lines, stack, openers) && NoneMissing(lines, openers)
    requires Consistent(lines + [line], |lines|)
    ensures line.indent in stack
            || (lines != [] && Introduces(lines[|lines| - 1]).Some? && line.indent > stack[|stack| - 1])
  {
    assert Unfold(0);
    var now, n := lines + [line], |lines|;
    match Owner(now, n)
    case None => assert stack[0] == 0;
    case Some(j) =>
      OwnedSince(now, n, line.indent);
      if j + 1 < n {
        assert forall i :: j < i < n ==> now[i] == lines[i];
        assert Open(lines, j);
        var i :| 1 <= i < |openers| && openers[i] == j;
        assert stack[i] == line.indent;
      }
  }

  lemma {:induction false} OwnedSince(lines: seq<Line>, k: nat, indent: nat)
    requires k <= |lines|
    ensures var j := OwnerBefore(lines, k, indent);
            j.Some? ==> forall i :: j.value < i < k ==> indent <= lines[i].indent
  {
    if k > 0 && lines[k - 1].indent >= indent { OwnedSince(lines, k - 1, indent); }
  }

  /** The host and volume are the ones whose sections are open, or about to be. */
  ghost predicate Remembered(n: nat, pending: Option<Level>, openers: seq<nat>, host: Option<nat>,
                             volume: Option<nat>) {
    (|openers| >= 2 ==> host == Some(openers[1]))
    && (|openers| == 3 ==> volume == Some(openers[2]))
    && (pending == Some(1) ==> n > 0 && host == Some(n - 1))
    && (pending == Some(2) ==> n > 0 && volume == Some(n - 1))
  }

  /** All that is known of a line that has a place; folded. */
  ghost predicate Placement(lines: seq<Line>, stack: seq<nat>, openers: seq<nat>, host: Option<nat>, volume: Option<nat>) {
    forall k {:trigger Unfold(k)} :: Unfold(k) ==>
      lines != [] && Sections(lines, stack, openers) && NoneMissing(lines, openers) && PlacedAt(lines, |stack| - 1, openers)
      && Remembered(|lines|, None, openers, host, volume)
  }

  lemma StillRemembered(n: nat, pending: Option<Level>, openers: seq<nat>, size: nat, host: Option<nat>, volume: Option<nat>)
    requires Remembered(n, pending, openers, host, volume) && size <= 3 && |openers| <= 3
    requires size <= |openers| || (n > 0 && size == |openers| + 1 && pending == Some(|openers|))
    ensures Remembered(n + 1, None, NextOpeners(openers, size, n - 1), host, volume)
  {
  }

  /** So `check` finds the level that the layout gives. */
  lemma LevelRight(lines: seq<Line>, stack: seq<nat>, pending: Option<Level>, openers: seq<nat>, line: Line,
                   level: Option<Level>, stack': seq<nat>, pending': Option<Level>,
                   host: Option<nat>, volume: Option<nat>)
    requires Remembered(|lines|, pending, openers, host, volume)
    requires Sections(lines, stack, openers) && NoneMissing(lines, openers) && Increasing(stack')
    requires pending == (if lines == [] then None else Introduces(lines[|lines| - 1]))
    requires pending.Some? ==> pending.value == |stack| <= 2
    requires line.directive.Some?
    requires Checked(line.directive.value.acceptable, line.indent, stack, pending, level, stack', pending')
    ensures var now := lines + [line];
            (level.Some? <==> InPlace(now, |lines|))
            && (level.Some? ==>
                  level.value == |stack'| - 1 && (|stack'| <= |openers| || lines != [])
                  && Placement(now, stack', NextOpeners(openers, |stack'|, |lines| - 1), host, volume))
  {
    if Fits(line.indent, stack, pending) {
      Located(lines, stack, openers, line, stack');
      SectionOwner(lines + [line], stack', NextOpeners(openers, |stack'|, |lines| - 1));
      StillRemembered(|lines|, pending, openers, |stack'|, host, volume);
    } else if Consistent(lines + [line], |lines|) {
      PlaceFound(lines, stack, openers, line);
    }
  }

  // ----- Conf::readOneFile

  datatype Outcome = Accepted | UnknownCommand | Inconsistent | BadArguments

  class Reader {
    const indenter: Indent
    var context: Context
    var host: Option<nat>
    var volume: Option<nat>
    var line: nat
    // The lines so far, and for each open section the line that introduced it.
    ghost var lines: seq<Line>
    ghost var openers: seq<nat>

    ghost predicate Valid()
      reads this, indenter
    {
      var stack, pending := indenter.stack, indenter.newLevel;
      Sections(lines, stack, openers) && NoneMissing(lines, openers) && line == |lines|
      && pending == (if lines == [] then None else Introduces(lines[|lines| - 1]))
      && (pending.Some? ==> pending.value == |stack| <= 2)
      && Remembered(|lines|, pending, openers, host, volume)
    }

    constructor ()
      ensures Valid() && fresh(indenter) && lines == []
    {
      indenter := new Indent();
      context, host, volume, line := Root, None, None, 0;
      lines, openers := [], [0];
    }

    /** The `switch` on the level. */
    method Enter(level: Level)
      requires level <= 2 && (level >= 1 ==> host.Some?) && (level == 2 ==> volume.Some?)
      modifies this`context, this`host, this`volume
      ensures host == (if level == 0 then None else old(host))
      ensures volume == (if level == 2 then old(volume) else None)
      ensures context == (if level == 0 then Root else if level == 1 then HostAt(host.value) else VolumeAt(volume.value))
    {
      match level
      case 0 => context, host, volume := Root, None, None;
      case 1 => context, volume := HostAt(host.value), None;
      case 2 => context := VolumeAt(volume.value);
    }

    /** `check`: a host or volume there must be, and the arguments in order. */
    method CheckDirective(d: Directive, wellFormed: bool) returns (ok: bool)
      ensures ok <==> wellFormed
                      && (d.kind.HostOnly? ==> host.Some? && (volume.Some? ==> 2 in d.acceptable))
                      && (d.kind.VolumeOnly? ==> volume.Some?)
    {
      if d.kind.HostOnly? {
        if host.None? { return false; }
        if volume.Some? && 2 !in d.acceptable { return false; }
      }
      if d.kind.VolumeOnly? && volume.None? { return false; }
      return wellFormed;
    }

    /** `set`, for the directives that change the context. */
    method Define(d: Directive)
      modifies this`context, this`host, this`volume
      ensures host == (if d.introduces == Some(1) then Some(line) else old(host))
      ensures volume == (if d.introduces == Some(1) then None else if d.introduces == Some(2) then Some(line) else old(volume))
      ensures context == (if d.introduces == Some(1) then HostAt(line) else if d.introduces == Some(2) then VolumeAt(line) else old(context))
    {
      if d.introduces == Some(1) {
        context, host, volume := HostAt(line), Some(line), None;
      } else if d.introduces == Some(2) {
        context, volume := VolumeAt(line), Some(line);
      }
    }

    /** The level of a line, if there is a place for it. */
    method Locate(l: Line) returns (level: Option<Level>)
      requires Valid() && l.directive.Some?
      modifies indenter, this`lines, this`openers
      ensures lines == old(lines) + [l]
      ensures level.Some? <==> InPlace(lines, |lines| - 1)
      ensures level.Some? ==> level.value == |indenter.stack| - 1
      ensures level.Some? ==> Placement(lines, indenter.stack, openers, host, volume)
    {
      ghost var stack, pending, now := indenter.stack, indenter.newLevel, lines + [l];
      level := indenter.Check(l.directive.value.acceptable, l.indent);
      LevelRight(lines, stack, pending, openers, l, level, indenter.stack, indenter.newLevel, host, volume);
      if level.Some? {
        openers := NextOpeners(openers, |indenter.stack|, |lines| - 1);
      }
      lines := now;
    }

    /** One line: its level is found, and with it the context. */
    method Place(l: Line) returns (placed: bool)
      requires Valid() && l.directive.Some?
      modifies this, indenter
      ensures lines == old(lines) + [l] && line == old(line)
      ensures placed <==> InPlace(lines, |lines| - 1)
      ensures placed ==> Sections(lines, indenter.stack, openers) && NoneMissing(lines, openers)
      ensures placed ==> Depth(lines, |lines| - 1) == |indenter.stack| - 1
      ensures placed && |indenter.stack| >= 2 ==> host == Some(openers[1])
      ensures placed ==> volume == if |indenter.stack| == 3 then Some(openers[2]) else None
      ensures placed ==> context == LayoutContext(lines, |lines| - 1) && host == LayoutHost(lines, |lines| - 1)
    {
      var level := Locate(l);
      if level.None? { return false; }
      assert Unfold(0);
      Enter(level.value);
      return true;
    }

    /** A line is accepted just if it is proper, and is then applied to what its
        layout says; and `check` never finds a host or a volume missing. */
    method ReadLine(l: Line) returns (r: Outcome, applied: Context, appliedHost: Option<nat>)
      requires Valid() && (l.directive.Some? ==> Declared(l.directive.value))
      modifies this, indenter
      ensures lines == old(lines) + [l]
      ensures r.Accepted? <==> Proper(lines, |lines| - 1)
      ensures r.UnknownCommand? <==> l.directive.None?
      ensures r.BadArguments? <==> l.directive.Some? && InPlace(lines, |lines| - 1) && !l.wellFormed
      ensures r.Accepted? ==> Valid()
      ensures r.Accepted? ==> applied == LayoutContext(lines, |lines| - 1) && appliedHost == LayoutHost(lines, |lines| - 1)
    {
      applied, appliedHost := Root, None;
      ProperIff(lines + [l], |lines|);
      if l.directive.None? {
        lines := lines + [l];
        return UnknownCommand, applied, appliedHost;
      }
      var d := l.directive.value;
      var placed := Place(l);
      if !placed { return Inconsistent, applied, appliedHost; }
      var sound := CheckDirective(d, l.wellFormed);
      if !sound { return BadArguments, applied, appliedHost; }
      applied, appliedHost := context, host;
      Define(d);
      indenter.Introduce(d.introduces);
      line := line + 1;
      r := Accepted;
    }
  }

  /** A proper line, applied to what its layout says; folded. */
  ghost predicate Applied(lines: seq<Line>, k: nat, context: Context, host: Option<nat>)
    requires k < |lines|
  {
    forall z {:trigger Unfold(z)} :: Unfold(z) ==>
      Proper(lines, k) && context == LayoutContext(lines, k) && host == LayoutHost(lines, k)
  }

  lemma LineApplied(some: seq<Line>, lines: seq<Line>, n: nat, r: Outcome, context: Context, host: Option<nat>)
    requires n < |some| && some <= lines
    requires r.Accepted? <==> Proper(some, n)
    requires r.Accepted? ==> context == LayoutContext(some, n) && host == LayoutHost(some, n)
    ensures if r.Accepted? then Applied(lines, n, context, host) else !Proper(lines, n)
  {
    MeaningOfPrefix(some, lines, n);
  }

  /** The lines so far have been applied; folded. */
  ghost predicate AppliedSoFar(lines: seq<Line>, contexts: seq<Context>, hosts: seq<Option<nat>>) {
    |contexts| == |hosts| <= |lines|
    && forall z {:trigger Unfold(z)} :: Unfold(z) ==>
         forall k :: 0 <= k < |contexts| ==> Applied(lines, k, contexts[k], hosts[k])
  }

  lemma AppliedMore(lines: seq<Line>, contexts: seq<Context>, hosts: seq<Option<nat>>, context: Context, host: Option<nat>)
    requires AppliedSoFar(lines, contexts, hosts) && |contexts| < |lines| && Applied(lines, |contexts|, context, host)
    ensures AppliedSoFar(lines, contexts + [context], hosts + [host])
  {
    assert Unfold(0);
  }

  lemma AllApplied(lines: seq<Line>, contexts: seq<Context>, hosts: seq<Option<nat>>)
    requires AppliedSoFar(lines, contexts, hosts)
    ensures forall k :: 0 <= k < |contexts| ==>
              Proper(lines, k) && contexts[k] == LayoutContext(lines, k) && hosts[k] == LayoutHost(lines, k)
  {
    assert Unfold(0);
    forall k | 0 <= k < |contexts|
      ensures Proper(lines, k) && contexts[k] == LayoutContext(lines, k) && hosts[k] == LayoutHost(lines, k)
    {
      assert Applied(lines, k, contexts[k], hosts[k]);
    }
  }

  /** A file is accepted just if every line of it is proper, and then every
      directive has been applied to the context that the layout gives it. If not,
      the lines before the first improper one have been. */
  method ReadOneFile(lines: seq<Line>) returns (r: Outcome, contexts: seq<Context>, hosts: seq<Option<nat>>)
    requires forall k :: 0 <= k < |lines| && lines[k].directive.Some? ==> Declared(lines[k].directive.value)
    ensures r.Accepted? <==> forall k :: 0 <= k < |lines| ==> Proper(lines, k)
    ensures |contexts| == |hosts| <= |lines| && (r.Accepted? <==> |contexts| == |lines|)
    ensures forall k :: 0 <= k < |contexts| ==>
              Proper(lines, k) && contexts[k] == LayoutContext(lines, k) && hosts[k] == LayoutHost(lines, k)
    ensures !r.Accepted? ==> !Proper(lines, |contexts|)
    ensures r.BadArguments? ==> !lines[|contexts|].wellFormed
  {
    var reader := new Reader();
    contexts, hosts := [], [];
    while |contexts| < |lines|
      invariant |contexts| == |hosts| <= |lines| && fresh(reader) && fresh(reader.indenter)
      invariant reader.Valid() && reader.lines == lines[..|contexts|]
      invariant AppliedSoFar(lines, contexts, hosts)
    {
      var n := |contexts|;
      var outcome, context, host := reader.ReadLine(lines[n]);
      assert reader.lines == lines[..n + 1];
      LineApplied(lines[..n + 1], lines, n, outcome, context, host);
      if !outcome.Accepted? {
        AllApplied(lines, contexts, hosts);
        return outcome, contexts, hosts;
      }
      AppliedMore(lines, contexts, hosts, context, host);
      contexts, hosts := contexts + [context], hosts + [host];
    }
    AllApplied(lines, contexts, hosts);
    r := Accepted;
  }
}
