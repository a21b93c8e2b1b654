/** From an edit script to hunks (`diff.rs`): the contract of the external diff library, the loops that
    build hunks under the output budget, and the whole diff of two revisions. */
module DiffHunks {
  import opened Wrappers
  import Utf8
  import opened Document
  import opened RevisionDiff

  // ---- the external library -------------------------------------------------

  datatype Tag = Equal | Delete | Insert | Replace

  /** One operation: the old lines `o1..o2` correspond to the new lines `n1..n2`. */
  datatype Op = Op(tag: Tag, o1: nat, o2: nat, n1: nat, n2: nat)

  predicate OpOk(op: Op, before: seq<Token>, after: seq<Token>) {
    && op.o1 <= op.o2 <= |before| && op.n1 <= op.n2 <= |after|
    && match op.tag
       case Equal => before[op.o1..op.o2] == after[op.n1..op.n2]
       case Delete => op.o1 < op.o2 && op.n1 == op.n2
       case Insert => op.o1 == op.o2 && op.n1 < op.n2
       case Replace => op.o1 < op.o2 && op.n1 < op.n2
  }

  predicate AllOk(ops: seq<Op>, before: seq<Token>, after: seq<Token>) {
    forall i | 0 <= i < |ops| :: OpOk(ops[i], before, after)
  }

  /** Each operation starts where the one before it ended, the first at `(o, n)`. */
  predicate Contiguous(ops: seq<Op>, o: nat, n: nat) {
    ops == [] || (ops[0].o1 == o && ops[0].n1 == n && Contiguous(ops[1..], ops[0].o2, ops[0].n2))
  }

  function EndOf(ops: seq<Op>, o: nat, n: nat): (nat, nat) {
    if ops == [] then (o, n) else EndOf(ops[1..], ops[0].o2, ops[0].n2)
  }

  /** The operations that are not `Equal`, in order. */
  function Changes(ops: seq<Op>): seq<Op> {
    if ops == [] then [] else (if ops[0].tag.Equal? then [] else [ops[0]]) + Changes(ops[1..])
  }

  /** What the diff library promises: the operations cover both sides contiguously and in order. */
  predicate ValidScript(ops: seq<Op>, before: seq<Token>, after: seq<Token>) {
    AllOk(ops, before, after) && Contiguous(ops, 0, 0) && EndOf(ops, 0, 0) == (|before|, |after|)
  }

  predicate GroupOk(group: seq<Op>, before: seq<Token>, after: seq<Token>) {
    && group != [] && AllOk(group, before, after)
    && Contiguous(group, group[0].o1, group[0].n1)
    && Changes(group) != []
  }

  /** Groups that start at or after `(o, n)` and follow one another without overlap. */
  predicate GroupsFrom(groups: seq<seq<Op>>, o: nat, n: nat, before: seq<Token>, after: seq<Token>) {
    groups == [] ||
    (&& GroupOk(groups[0], before, after)
     && o <= groups[0][0].o1 && n <= groups[0][0].n1
     && var (o', n') := EndOf(groups[0], 0, 0);
        GroupsFrom(groups[1..], o', n', before, after))
  }

  function Flatten(groups: seq<seq<Op>>): seq<Op> {
    if groups == [] then [] else groups[0] + Flatten(groups[1..])
  }

  /** What grouping promises: it keeps every change in order, trims only `Equal` operations, and yields
      ordered, disjoint, contiguous groups that each contain a change. */
  predicate ValidGroups(groups: seq<seq<Op>>, ops: seq<Op>, before: seq<Token>, after: seq<Token>) {
    GroupsFrom(groups, 0, 0, before, after) && Changes(Flatten(groups)) == Changes(ops)
  }

  // ---- hunks ----------------------------------------------------------------

  datatype Kind = Context | Deleted | Inserted

  datatype Line = Line(kind: Kind, oldNo: Option<nat>, newNo: Option<nat>, text: seq<byte>, ending: LineEnding)

  datatype Hunk = Hunk(oldStart: nat, oldCount: nat, newStart: nat, newCount: nat, lines: seq<Line>)

  function ContextLines(before: seq<Token>, o: nat, n: nat, count: nat): seq<Line>
    requires o + count <= |before|
  {
    seq(count, i requires 0 <= i < count =>
        Line(Context, Some(o + i + 1), Some(n + i + 1), before[o + i].text, before[o + i].ending))
  }

  function DeletedLines(before: seq<Token>, o1: nat, o2: nat): seq<Line>
    requires o1 <= o2 <= |before|
  {
    seq(o2 - o1, i requires 0 <= i < o2 - o1 =>
        Line(Deleted, Some(o1 + i + 1), None, before[o1 + i].text, before[o1 + i].ending))
  }

  function InsertedLines(after: seq<Token>, n1: nat, n2: nat): seq<Line>
    requires n1 <= n2 <= |after|
  {
    seq(n2 - n1, i requires 0 <= i < n2 - n1 =>
        Line(Inserted, None, Some(n1 + i + 1), after[n1 + i].text, after[n1 + i].ending))
  }

  function OpLines(op: Op, before: seq<Token>, after: seq<Token>): seq<Line>
    requires OpOk(op, before, after)
  {
    match op.tag
    case Equal => ContextLines(before, op.o1, op.n1, op.o2 - op.o1)
    case Delete => DeletedLines(before, op.o1, op.o2)
    case Insert => InsertedLines(after, op.n1, op.n2)
    case Replace => DeletedLines(before, op.o1, op.o2) + InsertedLines(after, op.n1, op.n2)
  }

  function GroupLines(group: seq<Op>, before: seq<Token>, after: seq<Token>): seq<Line>
    requires AllOk(group, before, after)
  {
    if group == [] then [] else OpLines(group[0], before, after) + GroupLines(group[1..], before, after)
  }

  /** The hunk of a group: it starts at the group's first line on each side and counts its lines. */
  function HunkOf(group: seq<Op>, before: seq<Token>, after: seq<Token>): Hunk
    requires GroupOk(group, before, after)
  {
    var (o, n) := (group[0].o1, group[0].n1);
    var (o', n') := EndOf(group, o, n);
    EndAfterStart(group, o, n);
    Hunk(o + 1, o' - o, n + 1, n' - n, GroupLines(group, before, after))
  }

  lemma {:induction false} EndAfterStart(ops: seq<Op>, o: nat, n: nat)
    requires Contiguous(ops, o, n) && forall i | 0 <= i < |ops| :: ops[i].o1 <= ops[i].o2 && ops[i].n1 <= ops[i].n2
    ensures o <= EndOf(ops, o, n).0 && n <= EndOf(ops, o, n).1
    ensures ops != [] ==> EndOf(ops, o, n) == EndOf(ops, 0, 0)
  {
    if ops != [] {
      EndAfterStart(ops[1..], ops[0].o2, ops[0].n2);
    }
  }

  /** `Iterator::min` and `max` over the operations' bounds. */
  function MinOld(ops: seq<Op>): nat requires ops != [] {
    if |ops| == 1 then ops[0].o1 else var rest := MinOld(ops[1..]); if ops[0].o1 <= rest then ops[0].o1 else rest
  }

  function MinNew(ops: seq<Op>): nat requires ops != [] {
    if |ops| == 1 then ops[0].n1 else var rest := MinNew(ops[1..]); if ops[0].n1 <= rest then ops[0].n1 else rest
  }

  function MaxOld(ops: seq<Op>): nat requires ops != [] {
    if |ops| == 1 then ops[0].o2 else var rest := MaxOld(ops[1..]); if ops[0].o2 >= rest then ops[0].o2 else rest
  }

  function MaxNew(ops: seq<Op>): nat requires ops != [] {
    if |ops| == 1 then ops[0].n2 else var rest := MaxNew(ops[1..]); if ops[0].n2 >= rest then ops[0].n2 else rest
  }

  lemma {:induction false} BoundsOfGroup(ops: seq<Op>, o: nat, n: nat)
    requires ops != [] && Contiguous(ops, o, n)
    requires forall i | 0 <= i < |ops| :: ops[i].o1 <= ops[i].o2 && ops[i].n1 <= ops[i].n2
    ensures MinOld(ops) == o && MinNew(ops) == n
    ensures (MaxOld(ops), MaxNew(ops)) == EndOf(ops, o, n)
  {
    if |ops| > 1 {
      BoundsOfGroup(ops[1..], ops[0].o2, ops[0].n2);
      EndAfterStart(ops[1..], ops[0].o2, ops[0].n2);
    } else {
      assert ops[1..] == [];
    }
  }

  /** Counts one output line against the budget. */
  method PushOutputLine(used: nat) returns (r: Result<nat, DiffError>)
    ensures r == if used < MAX_OUTPUT_LINES then Ok(used + 1) else Err(TooLarge)
  {
    var next := used + 1;
    if next > MAX_OUTPUT_LINES {
      return Err(TooLarge);
    }
    return Ok(next);
  }

  method PushContext(lines: seq<Line>, used: nat, op: Op, before: seq<Token>, after: seq<Token>)
    returns (r: Result<(seq<Line>, nat), DiffError>)
    requires OpOk(op, before, after) && op.tag.Equal? && used <= MAX_OUTPUT_LINES
    ensures r == Budget(lines, used, ContextLines(before, op.o1, op.n1, op.o2 - op.o1))
  {
    var out, count := lines, used;
    for offset := 0 to op.o2 - op.o1
      invariant count == used + offset <= MAX_OUTPUT_LINES
      invariant out == lines + ContextLines(before, op.o1, op.n1, offset)
    {
      var pushed := PushOutputLine(count);
      if pushed.Err? {
        return Err(pushed.error);
      }
      count := pushed.value;
      var token := before[op.o1 + offset];
      out := out + [Line(Context, Some(op.o1 + offset + 1), Some(op.n1 + offset + 1), token.text, token.ending)];
    }
    return Ok((out, count));
  }

  method PushDeleted(lines: seq<Line>, used: nat, o1: nat, o2: nat, before: seq<Token>)
    returns (r: Result<(seq<Line>, nat), DiffError>)
    requires o1 <= o2 <= |before| && used <= MAX_OUTPUT_LINES
    ensures r == Budget(lines, used, DeletedLines(before, o1, o2))
  {
    var out, count := lines, used;
    for i := o1 to o2
      invariant count == used + (i - o1) <= MAX_OUTPUT_LINES
      invariant out == lines + DeletedLines(before, o1, i)
    {
      var pushed := PushOutputLine(count);
      if pushed.Err? {
        return Err(pushed.error);
      }
      count := pushed.value;
      out := out + [Line(Deleted, Some(i + 1), None, before[i].text, before[i].ending)];
    }
    return Ok((out, count));
  }

  method PushInserted(lines: seq<Line>, used: nat, n1: nat, n2: nat, after: seq<Token>)
    returns (r: Result<(seq<Line>, nat), DiffError>)
    requires n1 <= n2 <= |after| && used <= MAX_OUTPUT_LINES
    ensures r == Budget(lines, used, InsertedLines(after, n1, n2))
  {
    var out, count := lines, used;
    for i := n1 to n2
      invariant count == used + (i - n1) <= MAX_OUTPUT_LINES
      invariant out == lines + InsertedLines(after, n1, i)
    {
      var pushed := PushOutputLine(count);
      if pushed.Err? {
        return Err(pushed.error);
      }
      count := pushed.value;
      out := out + [Line(Inserted, None, Some(i + 1), after[i].text, after[i].ending)];
    }
    return Ok((out, count));
  }

  /** Appending lines within the budget, or failing; never a part of them. */
  function Budget(lines: seq<Line>, used: nat, more: seq<Line>): Result<(seq<Line>, nat), DiffError> {
    if used + |more| <= MAX_OUTPUT_LINES then Ok((lines + more, used + |more|)) else Err(TooLarge)
  }

  method BuildHunk(group: seq<Op>, before: seq<Token>, after: seq<Token>, used: nat)
    returns (r: Result<(Hunk, nat), DiffError>)
    requires GroupOk(group, before, after) && used <= MAX_OUTPUT_LINES
    ensures var hunk := HunkOf(group, before, after);
            r == if used + |hunk.lines| <= MAX_OUTPUT_LINES then Ok((hunk, used + |hunk.lines|)) else Err(TooLarge)
  {
    hide EndOf, Contiguous, Changes, OpOk, OpLines, MinOld, MinNew, MaxOld, MaxNew;
    ScriptBounds(group, before, after);
    BoundsOfGroup(group, group[0].o1, group[0].n1);
    EndAfterStart(group, group[0].o1, group[0].n1);
    var oldStart, newStart := MinOld(group), MinNew(group);
    var oldEnd, newEnd := MaxOld(group), MaxNew(group);
    var lines: seq<Line>, count := [], used;
    for i := 0 to |group|
      invariant count == used + |lines| <= MAX_OUTPUT_LINES
      invariant lines + GroupLines(group[i..], before, after) == GroupLines(group, before, after)
    {
      GroupLinesStep(group, i, before, after);
      var pushed := PushOp(lines, count, group[i], before, after);
      if pushed.Err? {
        return Err(pushed.error);
      }
      lines, count := pushed.value.0, pushed.value.1;
    }
    assert lines == GroupLines(group, before, after);
    return Ok((Hunk(oldStart + 1, oldEnd - oldStart, newStart + 1, newEnd - newStart, lines), count));
  }

  lemma GroupLinesStep(group: seq<Op>, i: nat, before: seq<Token>, after: seq<Token>)
    requires i < |group| && AllOk(group, before, after)
    ensures GroupLines(group[i..], before, after)
            == OpLines(group[i], before, after) + GroupLines(group[i + 1..], before, after)
  {
    assert group[i..][1..] == group[i + 1..];
  }

  method PushOp(lines: seq<Line>, used: nat, op: Op, before: seq<Token>, after: seq<Token>)
    returns (r: Result<(seq<Line>, nat), DiffError>)
    requires OpOk(op, before, after) && used <= MAX_OUTPUT_LINES
    ensures r == Budget(lines, used, OpLines(op, before, after))
  {
    match op.tag
    case Equal =>
      r := PushContext(lines, used, op, before, after);
    case Delete =>
      r := PushDeleted(lines, used, op.o1, op.o2, before);
    case Insert =>
      r := PushInserted(lines, used, op.n1, op.n2, after);
    case Replace =>
      var deleted := PushDeleted(lines, used, op.o1, op.o2, before);
      if deleted.Err? {
        return Err(deleted.error);
      }
      r := PushInserted(deleted.value.0, deleted.value.1, op.n1, op.n2, after);
      var gone, come := DeletedLines(before, op.o1, op.o2), InsertedLines(after, op.n1, op.n2);
      assert lines + gone + come == lines + (gone + come);
  }

  // ---- the whole diff -------------------------------------------------------

  datatype Summary = Summary(id: string, revisionNo: int, parentId: Option<string>, byteLength: nat,
      contentHash: string)

  datatype DiffSource = DiffSource(summary: Summary, source: seq<byte>)

  datatype DiffDocument = DiffDocument(summary: Summary, hasBom: bool, ending: LineEnding, trailingNewline: bool)

  datatype Diff = Diff(from: DiffDocument, to: DiffDocument, identical: bool, additions: nat, deletions: nat,
      hunks: seq<Hunk>)

  function SumNew(ops: seq<Op>): int {
    if ops == [] then 0 else ops[0].n2 - ops[0].n1 + SumNew(ops[1..])
  }

  function SumOld(ops: seq<Op>): int {
    if ops == [] then 0 else ops[0].o2 - ops[0].o1 + SumOld(ops[1..])
  }

  function HunksOf(groups: seq<seq<Op>>, before: seq<Token>, after: seq<Token>): (r: seq<Hunk>)
    requires forall i | 0 <= i < |groups| :: GroupOk(groups[i], before, after)
    ensures |r| == |groups|
  {
    if groups == [] then [] else [HunkOf(groups[0], before, after)] + HunksOf(groups[1..], before, after)
  }

  function LineTotal(hunks: seq<Hunk>): nat {
    if hunks == [] then 0 else |hunks[0].lines| + LineTotal(hunks[1..])
  }

  ghost function DocumentOf(source: DiffSource): DiffDocument {
    DiffDocument(source.summary, HasBom(source.source), LineEndingOf(source.source), TrailingNewline(source.source))
  }

  function TokensOf(source: DiffSource): seq<Token> {
    Tokens(Body(source.source))
  }

  /** The decision taken before any line is compared. */
  predicate SameIdentity(from: DiffSource, to: DiffSource) {
    from.summary.id == to.summary.id || from.summary.contentHash == to.summary.contentHash
  }

  predicate WithinLimits(from: DiffSource, to: DiffSource) {
    |from.source| + |to.source| <= MAX_INPUT_BYTES && |TokensOf(from)| + |TokensOf(to)| <= MAX_INPUT_LINES
  }

  predicate Readable(from: DiffSource, to: DiffSource) {
    Utf8.Valid(Body(from.source)) && Utf8.Valid(Body(to.source))
  }

  /** The complete diff, or None when it does not fit the output budget. */
  ghost function FullDiff(from: DiffSource, to: DiffSource, ops: seq<Op>, groups: seq<seq<Op>>): Option<Diff>
    requires ValidGroups(groups, ops, TokensOf(from), TokensOf(to))
    requires ValidScript(ops, TokensOf(from), TokensOf(to))
  {
    if SameIdentity(from, to) then Some(Diff(DocumentOf(from), DocumentOf(to), true, 0, 0, []))
    else
      GroupsAllOk(groups, 0, 0, TokensOf(from), TokensOf(to));
      ScriptBounds(ops, TokensOf(from), TokensOf(to));
      SumsNonNegative(ops);
      var hunks := HunksOf(groups, TokensOf(from), TokensOf(to));
      if LineTotal(hunks) > MAX_OUTPUT_LINES then None
      else Some(Diff(DocumentOf(from), DocumentOf(to), false, SumNew(Changes(ops)), SumOld(Changes(ops)), hunks))
  }

  /** The whole call, with the limits in their order. */
  ghost function DiffOutcome(from: DiffSource, to: DiffSource, ops: seq<Op>, groups: seq<seq<Op>>)
    : Result<Diff, DiffError>
    requires ValidGroups(groups, ops, TokensOf(from), TokensOf(to))
    requires ValidScript(ops, TokensOf(from), TokensOf(to))
  {
    if |from.source| + |to.source| > MAX_INPUT_BYTES then Err(TooLarge)
    else if !Readable(from, to) then Err(InvalidUtf8)
    else if !WithinLimits(from, to) then Err(TooLarge)
    else
      match FullDiff(from, to, ops, groups)
      case None => Err(TooLarge)
      case Some(diff) => Ok(diff)
  }

  lemma {:induction false} GroupsAllOk(groups: seq<seq<Op>>, o: nat, n: nat, before: seq<Token>, after: seq<Token>)
    requires GroupsFrom(groups, o, n, before, after)
    ensures forall i | 0 <= i < |groups| :: GroupOk(groups[i], before, after)
  {
    hide GroupOk, EndOf;
    if groups != [] {
      var (o', n') := EndOf(groups[0], 0, 0);
      GroupsAllOk(groups[1..], o', n', before, after);
      forall i | 0 <= i < |groups|
        ensures GroupOk(groups[i], before, after)
      {
        assert i > 0 ==> groups[i] == groups[1..][i - 1];
      }
    }
  }

  lemma ChangesStep(ops: seq<Op>)
    requires ops != []
    ensures Changes(ops) == if ops[0].tag.Equal? then Changes(ops[1..]) else [ops[0]] + Changes(ops[1..])
    ensures !ops[0].tag.Equal? ==> Changes(ops)[1..] == Changes(ops[1..])
  {
  }

  lemma {:induction false} SumsNonNegative(ops: seq<Op>)
    requires forall i | 0 <= i < |ops| :: ops[i].o1 <= ops[i].o2 && ops[i].n1 <= ops[i].n2
    ensures SumNew(Changes(ops)) >= 0 && SumOld(Changes(ops)) >= 0
  {
    if ops != [] {
      SumsNonNegative(ops[1..]);
      ChangesStep(ops);
    }
  }

  lemma {:induction false} LineTotalConcat(x: seq<Hunk>, y: seq<Hunk>)
    ensures LineTotal(x + y) == LineTotal(x) + LineTotal(y)
  {
    if x == [] {
      assert x + y == y;
    } else {
      assert (x + y)[1..] == x[1..] + y;
      LineTotalConcat(x[1..], y);
    }
  }

  lemma {:induction false} HunksConcat(x: seq<seq<Op>>, y: seq<seq<Op>>, before: seq<Token>, after: seq<Token>)
    requires forall j | 0 <= j < |x| :: GroupOk(x[j], before, after)
    requires forall j | 0 <= j < |y| :: GroupOk(y[j], before, after)
    ensures HunksOf(x + y, before, after) == HunksOf(x, before, after) + HunksOf(y, before, after)
  {
    hide HunkOf, GroupOk;
    if x == [] {
      assert x + y == y;
    } else {
      assert (x + y)[0] == x[0] && (x + y)[1..] == x[1..] + y;
      HunksConcat(x[1..], y, before, after);
    }
  }

  lemma HunksStep(groups: seq<seq<Op>>, i: nat, before: seq<Token>, after: seq<Token>)
    requires i < |groups| && forall j | 0 <= j < |groups| :: GroupOk(groups[j], before, after)
    ensures var h := HunkOf(groups[i], before, after);
            && HunksOf(groups[..i + 1], before, after) == HunksOf(groups[..i], before, after) + [h]
            && LineTotal(HunksOf(groups[..i + 1], before, after))
               == LineTotal(HunksOf(groups[..i], before, after)) + |h.lines|
            && LineTotal(HunksOf(groups[..i + 1], before, after)) <= LineTotal(HunksOf(groups, before, after))
  {
    hide HunkOf, GroupOk;
    var h := HunkOf(groups[i], before, after);
    var one := [groups[i]];
    assert HunksOf(one, before, after) == [h] by {
      assert one[1..] == [];
    }
    assert LineTotal([h]) == |h.lines| by {
      assert [h][1..] == [];
    }
    hide HunksOf, LineTotal;
    assert groups[..i + 1] == groups[..i] + one;
    HunksConcat(groups[..i], one, before, after);
    LineTotalConcat(HunksOf(groups[..i], before, after), [h]);
    assert groups == groups[..i + 1] + groups[i + 1..];
    HunksConcat(groups[..i + 1], groups[i + 1..], before, after);
    LineTotalConcat(HunksOf(groups[..i + 1], before, after), HunksOf(groups[i + 1..], before, after));
  }

  /** The whole call. `ops` and `groups` stand for what the external library returns for the two token
      lists. Either the budget-checked complete diff comes back, or an error. */
  method BuildRevisionDiff(from: DiffSource, to: DiffSource, ops: seq<Op>, groups: seq<seq<Op>>)
    returns (r: Result<Diff, DiffError>)
    requires ValidScript(ops, TokensOf(from), TokensOf(to)) && ValidGroups(groups, ops, TokensOf(from), TokensOf(to))
    ensures r == DiffOutcome(from, to, ops, groups)
  {
    hide GroupsFrom, Contiguous, EndOf, OpOk, Utf8.Valid, HasBom, LineEndingOf, HunkOf, GroupOk, HunksOf, LineTotal,
      Tokens, LogicalLineCount, Changes, SumNew, SumOld;
    if |from.source| + |to.source| > MAX_INPUT_BYTES {
      return Err(TooLarge);
    }
    if !Utf8.Valid(Body(from.source)) || !Utf8.Valid(Body(to.source)) {
      return Err(InvalidUtf8);
    }
    FastCountIsRight(Body(from.source));
    FastCountIsRight(Body(to.source));
    if LogicalLineCount(Body(from.source)) + LogicalLineCount(Body(to.source)) > MAX_INPUT_LINES {
      return Err(TooLarge);
    }
    var fromParsed := ParseSource(from.source);
    var toParsed := ParseSource(to.source);
    var fromDocument := DiffDocument(from.summary, fromParsed.value.hasBom, fromParsed.value.ending,
                                     fromParsed.value.trailingNewline);
    var toDocument := DiffDocument(to.summary, toParsed.value.hasBom, toParsed.value.ending,
                                   toParsed.value.trailingNewline);
    if from.summary.id == to.summary.id || from.summary.contentHash == to.summary.contentHash {
      return Ok(Diff(fromDocument, toDocument, true, 0, 0, []));
    }
    var before, after := fromParsed.value.lines, toParsed.value.lines;
    ScriptBounds(ops, before, after);
    SumsNonNegative(ops);
    var additions, deletions := SumNew(Changes(ops)), SumOld(Changes(ops));
    GroupsAllOk(groups, 0, 0, before, after);
    var hunks := BuildHunks(groups, before, after);
    if hunks.Err? {
      return Err(hunks.error);
    }
    return Ok(Diff(fromDocument, toDocument, false, additions, deletions, hunks.value));
  }

  /** The hunks of all groups under one budget. */
  method BuildHunks(groups: seq<seq<Op>>, before: seq<Token>, after: seq<Token>)
    returns (r: Result<seq<Hunk>, DiffError>)
    requires forall i | 0 <= i < |groups| :: GroupOk(groups[i], before, after)
    ensures var hunks := HunksOf(groups, before, after);
            r == if LineTotal(hunks) > MAX_OUTPUT_LINES then Err(TooLarge) else Ok(hunks)
  {
    hide HunkOf, GroupOk;
    var hunks: seq<Hunk>, used := [], 0;
    for i := 0 to |groups|
      invariant hunks == HunksOf(groups[..i], before, after)
      invariant used == LineTotal(hunks) <= MAX_OUTPUT_LINES
    {
      HunksStep(groups, i, before, after);
      var hunk := BuildHunk(groups[i], before, after, used);
      if hunk.Err? {
        return Err(hunk.error);
      }
      hunks, used := hunks + [hunk.value.0], hunk.value.1;
    }
    assert groups[..|groups|] == groups;
    return Ok(hunks);
  }

  lemma ScriptBounds(ops: seq<Op>, before: seq<Token>, after: seq<Token>)
    requires AllOk(ops, before, after)
    ensures forall i | 0 <= i < |ops| :: ops[i].o1 <= ops[i].o2 && ops[i].n1 <= ops[i].n2
  {
    forall i | 0 <= i < |ops|
      ensures ops[i].o1 <= ops[i].o2 && ops[i].n1 <= ops[i].n2
    {
      assert OpOk(ops[i], before, after);
    }
  }
}
