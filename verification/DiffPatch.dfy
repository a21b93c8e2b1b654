/** The hunks of a diff are a two-way patch: applied to the old lines they give the new lines, applied
    in reverse they give the old lines back. */
module DiffPatch {
  import opened Wrappers
  import opened Document
  import opened RevisionDiff
  import opened DiffHunks

  // ---- applying hunks -------------------------------------------------------

  predicate Consumes(kind: Kind, forward: bool) {
    kind == Context || kind == (if forward then Deleted else Inserted)
  }

  predicate Emits(kind: Kind, forward: bool) {
    kind == Context || kind == (if forward then Inserted else Deleted)
  }

  /** A consumed line must be the line at that position: text, terminator and line number. */
  predicate Fits(line: Line, forward: bool, source: seq<Token>, pos: nat) {
    Consumes(line.kind, forward) ==>
      && pos < |source| && source[pos] == Token(line.text, line.ending)
      && (if forward then line.oldNo else line.newNo) == Some(pos + 1)
  }

  /** Runs the lines of a hunk over `source` from `pos`; gives the emitted lines and the new position. */
  function ApplyLines(lines: seq<Line>, forward: bool, source: seq<Token>, pos: nat): Option<(seq<Token>, nat)> {
    if lines == [] then Some(([], pos))
    else if !Fits(lines[0], forward, source, pos) then None
    else AddLine(lines[0], forward, ApplyLines(lines[1..], forward, source,
                                               if Consumes(lines[0].kind, forward) then pos + 1 else pos))
  }

  function AddLine(line: Line, forward: bool, r: Option<(seq<Token>, nat)>): Option<(seq<Token>, nat)> {
    match r
    case None => None
    case Some((rest, end)) =>
      Some((if Emits(line.kind, forward) then [Token(line.text, line.ending)] + rest else rest, end))
  }

  /** Copies what lies between the hunks and applies each hunk at its start. */
  function ApplyHunks(hunks: seq<Hunk>, forward: bool, source: seq<Token>, pos: nat): Option<seq<Token>> {
    if hunks == [] then if pos <= |source| then Some(source[pos..]) else None
    else
      var start := if forward then hunks[0].oldStart else hunks[0].newStart;
      if start < pos + 1 || start > |source| + 1 then None
      else
        match ApplyLines(hunks[0].lines, forward, source, start - 1)
        case None => None
        case Some((emitted, end)) =>
          match ApplyHunks(hunks[1..], forward, source, end)
          case None => None
          case Some(rest) => Some(source[pos..start - 1] + emitted + rest)
  }

  // ---- one operation, one group ---------------------------------------------

  lemma {:induction false} ApplyConcat(x: seq<Line>, y: seq<Line>, forward: bool, source: seq<Token>, pos: nat)
    requires ApplyLines(x, forward, source, pos).Some?
    ensures var (first, mid) := ApplyLines(x, forward, source, pos).value;
            ApplyLines(x + y, forward, source, pos) == AddTokens(first, ApplyLines(y, forward, source, mid))
    decreases |x|
  {
    if x == [] {
      assert x + y == y;
      AddNothing(ApplyLines(y, forward, source, pos));
    } else {
      hide Fits, AddTokens;
      var next := if Consumes(x[0].kind, forward) then pos + 1 else pos;
      assert (x + y)[0] == x[0] && (x + y)[1..] == x[1..] + y;
      ApplyConcat(x[1..], y, forward, source, next);
      var (first, mid) := ApplyLines(x[1..], forward, source, next).value;
      AddLineTokens(x[0], forward, first, mid, ApplyLines(y, forward, source, mid));
    }
  }

  function AddTokens(first: seq<Token>, r: Option<(seq<Token>, nat)>): Option<(seq<Token>, nat)> {
    match r
    case None => None
    case Some((second, end)) => Some((first + second, end))
  }

  lemma AddNothing(r: Option<(seq<Token>, nat)>)
    ensures AddTokens([], r) == r
  {
    if r.Some? {
      assert [] + r.value.0 == r.value.0;
    }
  }

  lemma AddLineTokens(line: Line, forward: bool, first: seq<Token>, mid: nat, r: Option<(seq<Token>, nat)>)
    ensures AddLine(line, forward, AddTokens(first, r))
            == AddTokens(AddLine(line, forward, Some((first, mid))).value.0, r)
  {
    if r.Some? {
      var token := Token(line.text, line.ending);
      assert [token] + (first + r.value.0) == [token] + first + r.value.0;
    }
  }

  lemma {:induction false} ApplyContext(before: seq<Token>, after: seq<Token>, o: nat, n: nat, count: nat,
      forward: bool)
    requires o + count <= |before| && n + count <= |after| && before[o..o + count] == after[n..n + count]
    ensures ApplyLines(ContextLines(before, o, n, count), forward, if forward then before else after,
                       if forward then o else n)
            == Some((before[o..o + count], (if forward then o else n) + count))
    decreases count
  {
    hide ContextLines, ApplyLines, Fits;
    var source, pos := if forward then before else after, if forward then o else n;
    if count > 0 {
      ContextCons(before, o, n, count);
      SliceCons(before, o, o + count);
      EqualTails(before, after, o, n, count);
      ApplyContext(before, after, o + 1, n + 1, count - 1, forward);
      var line := Line(Context, Some(o + 1), Some(n + 1), before[o].text, before[o].ending);
      ContextFits(line, before, after, o, n, forward);
      ApplyCons(line, ContextLines(before, o + 1, n + 1, count - 1), forward, source, pos);
    } else {
      assert before[o..o] == [];
      NoContext(before, o, n);
      ApplyNothing(forward, source, pos);
    }
  }

  lemma ContextFits(line: Line, before: seq<Token>, after: seq<Token>, o: nat, n: nat, forward: bool)
    requires o < |before| && n < |after| && before[o] == after[n]
    requires line == Line(Context, Some(o + 1), Some(n + 1), before[o].text, before[o].ending)
    ensures Fits(line, forward, if forward then before else after, if forward then o else n)
  {
  }

  lemma ApplyCons(line: Line, rest: seq<Line>, forward: bool, source: seq<Token>, pos: nat)
    requires Fits(line, forward, source, pos)
    ensures ApplyLines([line] + rest, forward, source, pos)
            == AddLine(line, forward, ApplyLines(rest, forward, source,
                                                 if Consumes(line.kind, forward) then pos + 1 else pos))
  {
    hide Fits;
    var lines := [line] + rest;
    assert lines[0] == line && lines[1..] == rest;
  }

  lemma NoContext(before: seq<Token>, o: nat, n: nat)
    requires o <= |before|
    ensures ContextLines(before, o, n, 0) == []
  {
  }

  lemma ContextCons(before: seq<Token>, o: nat, n: nat, count: nat)
    requires 0 < count && o + count <= |before|
    ensures ContextLines(before, o, n, count)
            == [Line(Context, Some(o + 1), Some(n + 1), before[o].text, before[o].ending)]
              + ContextLines(before, o + 1, n + 1, count - 1)
  {
  }

  lemma EqualTails<T>(before: seq<T>, after: seq<T>, o: nat, n: nat, count: nat)
    requires 0 < count && o + count <= |before| && n + count <= |after| && before[o..o + count] == after[n..n + count]
    ensures before[o] == after[n] && before[o + 1..o + count] == after[n + 1..n + count]
  {
    assert before[o] == before[o..o + count][0] && after[n] == after[n..n + count][0];
    assert before[o + 1..o + count] == before[o..o + count][1..] && after[n + 1..n + count] == after[n..n + count][1..];
  }

  lemma SliceCons<T>(s: seq<T>, i: nat, j: nat)
    requires i < j <= |s|
    ensures s[i..j] == [s[i]] + s[i + 1..j]
  {
  }

  lemma {:induction false} ApplyDeleted(before: seq<Token>, o1: nat, o2: nat, forward: bool, source: seq<Token>,
      pos: nat)
    requires o1 <= o2 <= |before| && (forward ==> source == before && pos == o1)
    ensures ApplyLines(DeletedLines(before, o1, o2), forward, source, pos)
            == Some(if forward then ([], o2) else (before[o1..o2], pos))
    decreases o2 - o1
  {
    if o1 < o2 {
      var lines := DeletedLines(before, o1, o2);
      assert lines[0] == Line(Deleted, Some(o1 + 1), None, before[o1].text, before[o1].ending);
      assert lines[1..] == DeletedLines(before, o1 + 1, o2);
      ApplyDeleted(before, o1 + 1, o2, forward, source, if forward then pos + 1 else pos);
      assert [before[o1]] + before[o1 + 1..o2] == before[o1..o2];
    } else {
      assert before[o1..o2] == [];
    }
  }

  lemma {:induction false} ApplyInserted(after: seq<Token>, n1: nat, n2: nat, forward: bool, source: seq<Token>,
      pos: nat)
    requires n1 <= n2 <= |after| && (!forward ==> source == after && pos == n1)
    ensures ApplyLines(InsertedLines(after, n1, n2), forward, source, pos)
            == Some(if forward then (after[n1..n2], pos) else ([], n2))
    decreases n2 - n1
  {
    if n1 < n2 {
      var lines := InsertedLines(after, n1, n2);
      assert lines[0] == Line(Inserted, None, Some(n1 + 1), after[n1].text, after[n1].ending);
      assert lines[1..] == InsertedLines(after, n1 + 1, n2);
      ApplyInserted(after, n1 + 1, n2, forward, source, if forward then pos else pos + 1);
      assert [after[n1]] + after[n1 + 1..n2] == after[n1..n2];
    } else {
      assert after[n1..n2] == [];
    }
  }

  /** One operation turns its old lines into its new lines, and back. */
  lemma ApplyOp(op: Op, before: seq<Token>, after: seq<Token>, forward: bool)
    requires OpOk(op, before, after)
    ensures ApplyLines(OpLines(op, before, after), forward, if forward then before else after,
                       if forward then op.o1 else op.n1)
            == Some(if forward then (after[op.n1..op.n2], op.o2) else (before[op.o1..op.o2], op.n2))
  {
    hide ApplyLines, ContextLines, DeletedLines, InsertedLines;
    var source := if forward then before else after;
    var pos := if forward then op.o1 else op.n1;
    match op.tag
    case Equal =>
      assert |before[op.o1..op.o2]| == |after[op.n1..op.n2]|;
      ApplyContext(before, after, op.o1, op.n1, op.o2 - op.o1, forward);
    case Delete =>
      ApplyDeleted(before, op.o1, op.o2, forward, source, pos);
    case Insert =>
      ApplyInserted(after, op.n1, op.n2, forward, source, pos);
    case Replace =>
      ApplyDeleted(before, op.o1, op.o2, forward, source, pos);
      ApplyInserted(after, op.n1, op.n2, forward, source, if forward then op.o2 else pos);
      ApplyConcat(DeletedLines(before, op.o1, op.o2), InsertedLines(after, op.n1, op.n2), forward, source, pos);
      assert [] + after[op.n1..op.n2] == after[op.n1..op.n2] && before[op.o1..op.o2] + [] == before[op.o1..op.o2];
  }

  lemma {:induction false} ApplyGroup(group: seq<Op>, o: nat, n: nat, before: seq<Token>, after: seq<Token>,
      forward: bool)
    requires AllOk(group, before, after) && Contiguous(group, o, n) && o <= |before| && n <= |after|
    ensures var (o', n') := EndOf(group, o, n);
            && o <= o' <= |before| && n <= n' <= |after|
            && ApplyLines(GroupLines(group, before, after), forward, if forward then before else after,
                          if forward then o else n)
               == Some(if forward then (after[n..n'], o') else (before[o..o'], n'))
    decreases |group|
  {
    hide ApplyLines, OpLines;
    if group == [] {
      ApplyNothing(forward, if forward then before else after, if forward then o else n);
      assert before[o..o] == [] && after[n..n] == [];
    } else {
      var op := group[0];
      var (o', n') := EndOf(group, o, n);
      assert OpOk(op, before, after);
      ApplyOp(op, before, after, forward);
      ApplyGroup(group[1..], op.o2, op.n2, before, after, forward);
      ApplyConcat(OpLines(op, before, after), GroupLines(group[1..], before, after), forward,
                  if forward then before else after, if forward then o else n);
      assert after[n..op.n2] + after[op.n2..n'] == after[n..n'];
      assert before[o..op.o2] + before[op.o2..o'] == before[o..o'];
    }
  }

  lemma ApplyNothing(forward: bool, source: seq<Token>, pos: nat)
    ensures ApplyLines([], forward, source, pos) == Some(([], pos))
  {
  }

  // ---- the lines between the changes are equal ------------------------------

  /** From `(o, n)` on, the two sides differ only by `changes`: the stretches between them are equal. */
  predicate Aligned(changes: seq<Op>, o: nat, n: nat, before: seq<Token>, after: seq<Token>) {
    && o <= |before| && n <= |after|
    && if changes == [] then before[o..] == after[n..]
       else
         var c := changes[0];
         && o <= c.o1 <= |before| && n <= c.n1 <= |after| && before[o..c.o1] == after[n..c.n1]
         && Aligned(changes[1..], c.o2, c.n2, before, after)
  }

  /** Going backwards over an equal stretch keeps the sides aligned. */
  lemma AlignedBack(changes: seq<Op>, op: Op, before: seq<Token>, after: seq<Token>)
    requires OpOk(op, before, after) && op.tag.Equal? && Aligned(changes, op.o2, op.n2, before, after)
    ensures Aligned(changes, op.o1, op.n1, before, after)
  {
    if changes == [] {
      assert before[op.o1..] == before[op.o1..op.o2] + before[op.o2..];
      assert after[op.n1..] == after[op.n1..op.n2] + after[op.n2..];
    } else {
      var c := changes[0];
      assert before[op.o1..c.o1] == before[op.o1..op.o2] + before[op.o2..c.o1];
      assert after[op.n1..c.n1] == after[op.n1..op.n2] + after[op.n2..c.n1];
    }
  }

  /** Going forwards by the same number of lines on both sides, not past the next change. */
  lemma AlignedOn(changes: seq<Op>, o: nat, n: nat, k: nat, before: seq<Token>, after: seq<Token>)
    requires Aligned(changes, o, n, before, after) && o + k <= |before| && n + k <= |after|
    requires changes != [] ==> o + k <= changes[0].o1 && n + k <= changes[0].n1
    ensures before[o..o + k] == after[n..n + k]
    ensures Aligned(changes, o + k, n + k, before, after)
  {
    if changes == [] {
      var x, y := before[o..], after[n..];
      assert before[o..o + k] == x[..k] && after[n..n + k] == y[..k];
      assert before[o + k..] == x[k..] && after[n + k..] == y[k..];
    } else {
      var c := changes[0];
      var x, y := before[o..c.o1], after[n..c.n1];
      assert before[o..o + k] == x[..k] && after[n..n + k] == y[..k];
      assert before[o + k..c.o1] == x[k..] && after[n + k..c.n1] == y[k..];
    }
  }

  /** A valid script leaves the sides aligned by its changes. */
  lemma {:induction false} ScriptAligned(ops: seq<Op>, o: nat, n: nat, before: seq<Token>, after: seq<Token>)
    requires AllOk(ops, before, after) && Contiguous(ops, o, n) && EndOf(ops, o, n) == (|before|, |after|)
    ensures Aligned(Changes(ops), o, n, before, after)
    decreases |ops|
  {
    if ops != [] {
      var op := ops[0];
      assert OpOk(op, before, after);
      ScriptAligned(ops[1..], op.o2, op.n2, before, after);
      ChangesStep(ops);
      if op.tag.Equal? {
        hide Aligned, OpOk;
        AlignedBack(Changes(ops[1..]), op, before, after);
      } else {
        assert before[o..op.o1] == [] && after[n..op.n1] == [];
      }
    }
  }

  lemma {:induction false} ChangesConcat(x: seq<Op>, y: seq<Op>)
    ensures Changes(x + y) == Changes(x) + Changes(y)
  {
    if x == [] {
      assert x + y == y;
    } else {
      assert (x + y)[1..] == x[1..] + y;
      ChangesConcat(x[1..], y);
    }
  }

  /** Up to its first change a group runs along the diagonal, so the gap in front of it is diagonal too. */
  lemma {:induction false} FirstChange(group: seq<Op>, o: nat, n: nat, before: seq<Token>, after: seq<Token>)
    requires AllOk(group, before, after) && Contiguous(group, o, n) && Changes(group) != []
    ensures var c := Changes(group)[0]; o <= c.o1 && n <= c.n1 && c.o1 - o == c.n1 - n
    decreases |group|
  {
    assert OpOk(group[0], before, after);
    ChangesStep(group);
    if group[0].tag.Equal? {
      assert |before[group[0].o1..group[0].o2]| == |after[group[0].n1..group[0].n2]|;
      FirstChange(group[1..], group[0].o2, group[0].n2, before, after);
    }
  }

  /** The changes of later groups start at or after where they are allowed to. */
  lemma {:induction false} LaterChanges(groups: seq<seq<Op>>, o: nat, n: nat, before: seq<Token>, after: seq<Token>)
    requires GroupsFrom(groups, o, n, before, after) && Changes(Flatten(groups)) != []
    ensures groups != [] && Changes(Flatten(groups))[0].o1 >= o && Changes(Flatten(groups))[0].n1 >= n
  {
    ChangesConcat(groups[0], Flatten(groups[1..]));
    FirstChange(groups[0], groups[0][0].o1, groups[0][0].n1, before, after);
  }

  /** Walking through a group uses up its changes and keeps the sides aligned by the remaining ones. */
  lemma {:induction false} AlignedThrough(group: seq<Op>, rest: seq<Op>, o: nat, n: nat, before: seq<Token>,
      after: seq<Token>)
    requires AllOk(group, before, after) && Contiguous(group, o, n) && o <= |before| && n <= |after|
    requires Aligned(Changes(group) + rest, o, n, before, after)
    requires rest != [] ==> var (o', n') := EndOf(group, o, n); rest[0].o1 >= o' && rest[0].n1 >= n'
    ensures Aligned(rest, EndOf(group, o, n).0, EndOf(group, o, n).1, before, after)
    decreases |group|
  {
    hide Aligned, OpOk, Changes;
    if group == [] {
      NoChanges();
      assert Changes(group) + rest == rest;
    } else {
      var op := group[0];
      var changes := Changes(group) + rest;
      assert OpOk(op, before, after);
      ChangesStep(group);
      OpSizes(op, before, after);
      ScriptBounds(group[1..], before, after);
      if op.tag.Equal? {
        NextChange(group[1..], rest, op.o2, op.n2);
        AlignedOn(changes, o, n, op.o2 - op.o1, before, after);
      } else {
        assert changes[0] == op && changes[1..] == Changes(group[1..]) + rest;
        AlignedNext(changes, o, n, before, after);
      }
      AlignedThrough(group[1..], rest, op.o2, op.n2, before, after);
    }
  }

  lemma NoChanges()
    ensures Changes([]) == []
  {
  }

  lemma OpSizes(op: Op, before: seq<Token>, after: seq<Token>)
    requires OpOk(op, before, after)
    ensures op.o1 <= op.o2 <= |before| && op.n1 <= op.n2 <= |after|
    ensures op.tag.Equal? ==> op.o2 - op.o1 == op.n2 - op.n1
  {
    assert |before[op.o1..op.o2]| == op.o2 - op.o1 && |after[op.n1..op.n2]| == op.n2 - op.n1;
  }

  lemma AlignedNext(changes: seq<Op>, o: nat, n: nat, before: seq<Token>, after: seq<Token>)
    requires changes != [] && Aligned(changes, o, n, before, after)
    ensures Aligned(changes[1..], changes[0].o2, changes[0].n2, before, after)
  {
  }

  lemma {:induction false} NextChange(group: seq<Op>, rest: seq<Op>, o: nat, n: nat)
    requires Contiguous(group, o, n)
             && forall i | 0 <= i < |group| :: group[i].o1 <= group[i].o2 && group[i].n1 <= group[i].n2
    requires rest != [] ==> var (o', n') := EndOf(group, o, n); rest[0].o1 >= o' && rest[0].n1 >= n'
    ensures Changes(group) + rest != [] ==> (Changes(group) + rest)[0].o1 >= o && (Changes(group) + rest)[0].n1 >= n
    decreases |group|
  {
    if group != [] {
      ChangesStep(group);
      NextChange(group[1..], rest, group[0].o2, group[0].n2);
      if group[0].tag.Equal? {
        assert Changes(group) + rest == Changes(group[1..]) + rest;
      }
    }
  }

  // ---- whole diffs ----------------------------------------------------------

  lemma {:induction false} ApplyFrom(groups: seq<seq<Op>>, o: nat, n: nat, before: seq<Token>, after: seq<Token>,
      forward: bool)
    requires GroupsFrom(groups, o, n, before, after)
    requires forall i | 0 <= i < |groups| :: GroupOk(groups[i], before, after)
    requires Aligned(Changes(Flatten(groups)), o, n, before, after)
    ensures ApplyHunks(HunksOf(groups, before, after), forward, if forward then before else after,
                       if forward then o else n)
            == Some(if forward then after[n..] else before[o..])
    decreases |groups|
  {
    hide Aligned, ApplyLines, ApplyHunks, OpOk, GroupsFrom, Changes, Flatten, Contiguous, EndOf, GroupOk, HunkOf,
      HunksOf, GroupLines;
    if groups == [] {
      AlignedEnd(groups, o, n, before, after);
      ApplyEnd(forward, if forward then before else after, if forward then o else n);
    } else {
      var g, rest := groups[0], groups[1..];
      HunkParts(g, before, after);
      var p, q := g[0].o1, g[0].n1;
      var (o', n') := EndOf(g, p, q);
      var hunks := HunksOf(groups, before, after);
      HunksCons(groups, before, after);
      GroupGap(groups, o, n, before, after);
      ApplyGroup(g, p, q, before, after, forward);
      ApplyFrom(rest, o', n', before, after, forward);
      Stitch(after, n, q, n');
      Stitch(before, o, p, o');
      if forward {
        ApplyStep(hunks, forward, before, o, after[q..n'], o', after[n'..]);
      } else {
        ApplyStep(hunks, forward, after, n, before[p..o'], n', before[o'..]);
      }
    }
  }

  lemma HunksCons(groups: seq<seq<Op>>, before: seq<Token>, after: seq<Token>)
    requires groups != [] && forall i | 0 <= i < |groups| :: GroupOk(groups[i], before, after)
    ensures HunksOf(groups, before, after) == [HunkOf(groups[0], before, after)] + HunksOf(groups[1..], before, after)
    ensures HunksOf(groups, before, after)[1..] == HunksOf(groups[1..], before, after)
    ensures AllOk(groups[0], before, after)
  {
  }

  lemma ApplyStep(hunks: seq<Hunk>, forward: bool, source: seq<Token>, pos: nat, emitted: seq<Token>, end: nat,
      tail: seq<Token>)
    requires hunks != []
    requires var start := if forward then hunks[0].oldStart else hunks[0].newStart;
             && pos + 1 <= start <= |source| + 1
             && ApplyLines(hunks[0].lines, forward, source, start - 1) == Some((emitted, end))
    requires ApplyHunks(hunks[1..], forward, source, end) == Some(tail)
    ensures var start := if forward then hunks[0].oldStart else hunks[0].newStart;
            ApplyHunks(hunks, forward, source, pos) == Some(source[pos..start - 1] + emitted + tail)
  {
  }

  lemma Stitch<T>(s: seq<T>, i: nat, j: nat, k: nat)
    requires i <= j <= k <= |s|
    ensures s[i..] == s[i..j] + s[j..k] + s[k..]
  {
  }

  lemma ApplyEnd(forward: bool, source: seq<Token>, pos: nat)
    requires pos <= |source|
    ensures ApplyHunks([], forward, source, pos) == Some(source[pos..])
  {
  }

  lemma AlignedEnd(groups: seq<seq<Op>>, o: nat, n: nat, before: seq<Token>, after: seq<Token>)
    requires groups == [] && Aligned(Changes(Flatten(groups)), o, n, before, after)
    ensures o <= |before| && n <= |after| && before[o..] == after[n..]
    ensures HunksOf(groups, before, after) == []
  {
  }

  lemma HunkParts(g: seq<Op>, before: seq<Token>, after: seq<Token>)
    requires GroupOk(g, before, after)
    ensures g != []
    ensures var h := HunkOf(g, before, after);
            && h.oldStart == g[0].o1 + 1 && h.newStart == g[0].n1 + 1
            && h.lines == GroupLines(g, before, after)
            && Contiguous(g, g[0].o1, g[0].n1)
  {
  }

  /** The gap in front of the first group is equal on both sides, and behind the group the sides are
      aligned by the remaining changes. */
  lemma GroupGap(groups: seq<seq<Op>>, o: nat, n: nat, before: seq<Token>, after: seq<Token>)
    requires groups != [] && GroupsFrom(groups, o, n, before, after)
    requires Aligned(Changes(Flatten(groups)), o, n, before, after)
    ensures var (p, q) := (groups[0][0].o1, groups[0][0].n1);
            var (o', n') := EndOf(groups[0], p, q);
            && o <= p <= |before| && n <= q <= |after|
            && before[o..p] == after[n..q]
            && GroupsFrom(groups[1..], o', n', before, after)
            && Aligned(Changes(Flatten(groups[1..])), o', n', before, after)
  {
    hide Aligned, OpOk, EndOf, Changes;
    var g := groups[0];
    var later := Changes(Flatten(groups[1..]));
    var p, q := g[0].o1, g[0].n1;
    assert OpOk(g[0], before, after);
    OpSizes(g[0], before, after);
    ScriptBounds(g, before, after);
    EndAfterStart(g, p, q);
    ChangesConcat(g, Flatten(groups[1..]));
    FirstChange(g, p, q, before, after);
    AlignedBound(Changes(g) + later, o, n, before, after);
    assert p - o == q - n;
    AlignedOn(Changes(g) + later, o, n, p - o, before, after);
    if later != [] {
      LaterChanges(groups[1..], EndOf(g, p, q).0, EndOf(g, p, q).1, before, after);
    }
    AlignedThrough(g, later, p, q, before, after);
  }

  /** The next change is equally far away on both sides. */
  lemma AlignedBound(changes: seq<Op>, o: nat, n: nat, before: seq<Token>, after: seq<Token>)
    requires changes != [] && Aligned(changes, o, n, before, after)
    ensures o <= changes[0].o1 && n <= changes[0].n1 && changes[0].o1 - o == changes[0].n1 - n
  {
    assert |before[o..changes[0].o1]| == |after[n..changes[0].n1]|;
  }

  /** THE PATCH THEOREM, for every script and grouping the library may return. */
  lemma HunksArePatch(ops: seq<Op>, groups: seq<seq<Op>>, before: seq<Token>, after: seq<Token>)
    requires ValidScript(ops, before, after) && ValidGroups(groups, ops, before, after)
    ensures forall i | 0 <= i < |groups| :: GroupOk(groups[i], before, after)
    ensures ApplyHunks(HunksOf(groups, before, after), true, before, 0) == Some(after)
    ensures ApplyHunks(HunksOf(groups, before, after), false, after, 0) == Some(before)
  {
    hide GroupOk, Aligned, ApplyHunks;
    GroupsAllOk(groups, 0, 0, before, after);
    ScriptAligned(ops, 0, 0, before, after);
    ApplyFrom(groups, 0, 0, before, after, true);
    ApplyFrom(groups, 0, 0, before, after, false);
  }

  lemma {:induction false} SumsOfScript(ops: seq<Op>, o: nat, n: nat, before: seq<Token>, after: seq<Token>)
    requires AllOk(ops, before, after) && Contiguous(ops, o, n)
    ensures SumNew(Changes(ops)) - SumOld(Changes(ops)) == (EndOf(ops, o, n).1 - n) - (EndOf(ops, o, n).0 - o)
    decreases |ops|
  {
    if ops != [] {
      assert OpOk(ops[0], before, after);
      OpSizes(ops[0], before, after);
      ChangesStep(ops);
      SumsOfScript(ops[1..], ops[0].o2, ops[0].n2, before, after);
    }
  }

  /** A diff that succeeds is complete: it patches both ways, its counts account for the difference in
      length, and when it has no hunks although the revisions are not identical, only the byte-order
      mark differs. */
  lemma DiffIsComplete(from: DiffSource, to: DiffSource, ops: seq<Op>, groups: seq<seq<Op>>)
    requires ValidScript(ops, TokensOf(from), TokensOf(to)) && ValidGroups(groups, ops, TokensOf(from), TokensOf(to))
    requires from.source == to.source <==> from.summary.contentHash == to.summary.contentHash
    requires from.summary.id == to.summary.id ==> from.source == to.source
    requires FullDiff(from, to, ops, groups).Some?
    ensures var diff := FullDiff(from, to, ops, groups).value;
            && ApplyHunks(diff.hunks, true, TokensOf(from), 0) == Some(TokensOf(to))
            && ApplyHunks(diff.hunks, false, TokensOf(to), 0) == Some(TokensOf(from))
            && diff.additions - diff.deletions == |TokensOf(to)| - |TokensOf(from)|
            && (diff.identical <==> from.source == to.source)
            && (diff.hunks == [] && !diff.identical ==>
                  Body(from.source) == Body(to.source) && HasBom(from.source) != HasBom(to.source))
  {
    hide Tokens, ValidScript, GroupsFrom, GroupOk, HasBom;
    var before, after := TokensOf(from), TokensOf(to);
    var diff := FullDiff(from, to, ops, groups).value;
    if !diff.identical {
      HunksArePatch(ops, groups, before, after);
      CountsOfScript(ops, before, after);
      if diff.hunks == [] {
        assert before[0..] == before;
        JoinInjective(Body(from.source), Body(to.source));
        BomDiffers(from.source, to.source);
      }
    }
  }

  lemma CountsOfScript(ops: seq<Op>, before: seq<Token>, after: seq<Token>)
    requires ValidScript(ops, before, after)
    ensures SumNew(Changes(ops)) - SumOld(Changes(ops)) == |after| - |before|
  {
    SumsOfScript(ops, 0, 0, before, after);
  }

  lemma BomDiffers(a: seq<byte>, b: seq<byte>)
    requires a != b && Body(a) == Body(b)
    ensures HasBom(a) != HasBom(b)
  {
    assert a == (if HasBom(a) then BOM else []) + Body(a);
    assert b == (if HasBom(b) then BOM else []) + Body(b);
  }
}
