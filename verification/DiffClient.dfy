/** The browser's independent checks of a diff (`httpApi.ts`), written as loops over the received hunks
    and specified by acceptance predicates, and the proof that everything the service emits passes. */
module DiffClient {
  import opened Wrappers
  import opened Document
  import opened RevisionDiff
  import opened DiffHunks
  import opened DiffPatch

  const MAX_SAFE_INTEGER: nat := 0x1F_FFFF_FFFF_FFFF
  const MAX_ID_LENGTH: nat := 128

  // The browser has limits of its own.
  const MAX_READ_BYTES: nat := 0x80_0000
  const MAX_READ_LINES: nat := 10_000

  predicate IsSafe(n: nat) {
    n <= MAX_SAFE_INTEGER
  }

  predicate IsRevisionId(id: string) {
    0 < |id| <= MAX_ID_LENGTH && forall i | 0 <= i < |id| :: id[i] >= ' ' && id[i] as int != 0x7F
  }

  predicate IsHash(hash: string) {
    |hash| == 64 && forall i | 0 <= i < 64 :: '0' <= hash[i] <= '9' || 'a' <= hash[i] <= 'f'
  }

  /** `decodeRevisionSummary`, for the fields a summary has here. */
  predicate SummaryAccepted(s: Summary) {
    && IsRevisionId(s.id) && 1 <= s.revisionNo <= MAX_SAFE_INTEGER
    && (s.parentId.Some? ==> IsRevisionId(s.parentId.value))
    && IsSafe(s.byteLength) && IsHash(s.contentHash)
  }

  predicate DocumentAccepted(d: DiffDocument, expectedId: string) {
    SummaryAccepted(d.summary) && d.summary.id == expectedId
  }

  /** A line number is null or a positive safe integer. */
  predicate NumberAccepted(no: Option<nat>) {
    no.Some? ==> 1 <= no.value && IsSafe(no.value)
  }

  predicate LineAccepted(line: Line) {
    && NumberAccepted(line.oldNo) && NumberAccepted(line.newNo)
    && LF !in line.text && line.ending != Mixed
    && match line.kind
       case Context => line.oldNo.Some? && line.newNo.Some?
       case Deleted => line.oldNo.Some? && line.newNo.None?
       case Inserted => line.oldNo.None? && line.newNo.Some?
  }

  /** The line numbers continue from the expected ones; gives the next expected ones. */
  function Walk(lines: seq<Line>, o: nat, n: nat): Option<(nat, nat)> {
    if lines == [] then Some((o, n))
    else if !Expected(lines[0], o, n) then None
    else
      Walk(lines[1..], if lines[0].kind == Inserted then o else o + 1, if lines[0].kind == Deleted then n else n + 1)
  }

  predicate Expected(line: Line, o: nat, n: nat) {
    && (line.kind != Inserted ==> line.oldNo == Some(o))
    && (line.kind != Deleted ==> line.newNo == Some(n))
  }

  predicate HasChange(lines: seq<Line>) {
    exists i | 0 <= i < |lines| :: lines[i].kind != Context
  }

  predicate HunkAccepted(h: Hunk) {
    && IsSafe(h.oldStart) && IsSafe(h.oldCount) && IsSafe(h.newStart) && IsSafe(h.newCount)
    && 0 < |h.lines| <= MAX_READ_LINES
    && 1 <= h.oldStart && 1 <= h.newStart
    && (forall i | 0 <= i < |h.lines| :: LineAccepted(h.lines[i]))
    && HasChange(h.lines)
    && Walk(h.lines, h.oldStart, h.newStart) == Some((h.oldStart + h.oldCount, h.newStart + h.newCount))
  }

  method DecodeLine(line: Line) returns (ok: bool)
    ensures ok == LineAccepted(line)
  {
    ok := NumberAccepted(line.oldNo) && NumberAccepted(line.newNo) && LF !in line.text && line.ending != Mixed;
    if line.kind == Context && (line.oldNo.None? || line.newNo.None?) {
      ok := false;
    }
    if line.kind == Deleted && (line.oldNo.None? || line.newNo.Some?) {
      ok := false;
    }
    if line.kind == Inserted && (line.oldNo.Some? || line.newNo.None?) {
      ok := false;
    }
  }

  /** The walk over the lines from one on. */
  lemma WalkLine(lines: seq<Line>, i: nat, o: nat, n: nat)
    requires i < |lines|
    ensures Walk(lines[i..], o, n)
            == if !Expected(lines[i], o, n) then None
               else Walk(lines[i + 1..], if lines[i].kind == Inserted then o else o + 1,
                         if lines[i].kind == Deleted then n else n + 1)
  {
    assert lines[i..][0] == lines[i] && lines[i..][1..] == lines[i + 1..];
  }

  lemma WalkEnd(lines: seq<Line>)
    ensures lines[0..] == lines && forall o: nat, n: nat :: Walk(lines[|lines|..], o, n) == Some((o, n))
  {
  }

  lemma ChangeStep(lines: seq<Line>, i: nat)
    requires i < |lines|
    ensures HasChange(lines[..i + 1]) <==> HasChange(lines[..i]) || lines[i].kind != Context
  {
    var more := lines[..i + 1];
    if HasChange(lines[..i]) {
      var j :| 0 <= j < i && lines[..i][j].kind != Context;
      assert more[j].kind != Context;
    }
    if HasChange(more) {
      var j :| 0 <= j <= i && more[j].kind != Context;
      assert j < i ==> lines[..i][j].kind != Context;
    }
    assert more[i] == lines[i];
  }

  lemma ChangeEnds(lines: seq<Line>)
    ensures !HasChange(lines[..0]) && lines[..|lines|] == lines
  {
  }

  method DecodeHunk(h: Hunk) returns (ok: bool)
    ensures ok == HunkAccepted(h)
  {
    hide Walk, HasChange, LineAccepted;
    if !IsSafe(h.oldStart) || !IsSafe(h.oldCount) || !IsSafe(h.newStart) || !IsSafe(h.newCount)
      || |h.lines| == 0 || |h.lines| > MAX_READ_LINES || h.oldStart < 1 || h.newStart < 1 {
      return false;
    }
    var decoded := DecodeLines(h.lines);
    if !decoded {
      return false;
    }
    var consumedOld, consumedNew, changed;
    ok, consumedOld, consumedNew, changed := DecodeNumbers(h.lines, h.oldStart, h.newStart);
    ok := ok && changed && consumedOld == h.oldCount && consumedNew == h.newCount;
  }

  method DecodeLines(lines: seq<Line>) returns (ok: bool)
    ensures ok == forall i | 0 <= i < |lines| :: LineAccepted(lines[i])
  {
    hide LineAccepted;
    for i := 0 to |lines|
      invariant forall j | 0 <= j < i :: LineAccepted(lines[j])
    {
      var decoded := DecodeLine(lines[i]);
      if !decoded {
        return false;
      }
    }
    ok := true;
  }

  /** The loop over the line numbers: what the lines consume on either side, and whether one is a change. */
  method DecodeNumbers(lines: seq<Line>, oldStart: nat, newStart: nat)
    returns (ok: bool, consumedOld: nat, consumedNew: nat, changed: bool)
    ensures ok == Walk(lines, oldStart, newStart).Some?
    ensures ok ==>
              && Walk(lines, oldStart, newStart) == Some((oldStart + consumedOld, newStart + consumedNew))
              && changed == HasChange(lines)
  {
    hide Walk, HasChange;
    WalkEnd(lines);
    ChangeEnds(lines);
    var expectedOld, expectedNew := oldStart, newStart;
    consumedOld, consumedNew, changed := 0, 0, false;
    for i := 0 to |lines|
      invariant expectedOld == oldStart + consumedOld && expectedNew == newStart + consumedNew
      invariant changed == HasChange(lines[..i])
      invariant Walk(lines[i..], expectedOld, expectedNew) == Walk(lines, oldStart, newStart)
    {
      var line := lines[i];
      WalkLine(lines, i, expectedOld, expectedNew);
      ChangeStep(lines, i);
      match line.kind
      case Context =>
        if line.oldNo != Some(expectedOld) || line.newNo != Some(expectedNew) {
          return false, consumedOld, consumedNew, changed;
        }
        expectedOld, expectedNew := expectedOld + 1, expectedNew + 1;
        consumedOld, consumedNew := consumedOld + 1, consumedNew + 1;
      case Deleted =>
        if line.oldNo != Some(expectedOld) {
          return false, consumedOld, consumedNew, changed;
        }
        expectedOld, consumedOld, changed := expectedOld + 1, consumedOld + 1, true;
      case Inserted =>
        if line.newNo != Some(expectedNew) {
          return false, consumedOld, consumedNew, changed;
        }
        expectedNew, consumedNew, changed := expectedNew + 1, consumedNew + 1, true;
    }
    ok := true;
  }

  function CountKind(lines: seq<Line>, kind: Kind): nat {
    if lines == [] then 0 else (if lines[0].kind == kind then 1 else 0) + CountKind(lines[1..], kind)
  }

  function CountAll(hunks: seq<Hunk>, kind: Kind): nat {
    if hunks == [] then 0 else CountKind(hunks[0].lines, kind) + CountAll(hunks[1..], kind)
  }

  /** Each hunk starts at or after the end of the one before it, on both sides. */
  predicate InOrder(hunks: seq<Hunk>, oldEnd: nat, newEnd: nat) {
    hunks == [] ||
    (var h := hunks[0];
     && IsSafe(h.oldStart + h.oldCount) && IsSafe(h.newStart + h.newCount)
     && h.oldStart >= oldEnd && h.newStart >= newEnd
     && InOrder(hunks[1..], h.oldStart + h.oldCount, h.newStart + h.newCount))
  }

  predicate SameMetadata(a: DiffDocument, b: DiffDocument) {
    && a.summary.contentHash == b.summary.contentHash && a.summary.byteLength == b.summary.byteLength
    && a.hasBom == b.hasBom && a.ending == b.ending && a.trailingNewline == b.trailingNewline
  }

  predicate DiffAccepted(d: Diff, fromId: string, toId: string) {
    && IsSafe(d.additions) && IsSafe(d.deletions)
    && DocumentAccepted(d.from, fromId) && DocumentAccepted(d.to, toId)
    && d.from.summary.byteLength + d.to.summary.byteLength <= MAX_READ_BYTES
    && d.additions <= MAX_READ_LINES && d.deletions <= MAX_READ_LINES
    && |d.hunks| <= MAX_READ_LINES && (forall i | 0 <= i < |d.hunks| :: HunkAccepted(d.hunks[i]))
    && LineTotal(d.hunks) <= MAX_READ_LINES
    && CountAll(d.hunks, Inserted) == d.additions && CountAll(d.hunks, Deleted) == d.deletions
    && InOrder(d.hunks, 1, 1)
    && (d.from.summary.id == d.to.summary.id ==> SameMetadata(d.from, d.to))
    && d.identical == (d.from.summary.id == d.to.summary.id || d.from.summary.contentHash == d.to.summary.contentHash)
    && (d.identical ==> SameMetadata(d.from, d.to) && d.additions == 0 && d.deletions == 0 && d.hunks == [])
  }

  lemma TotalsStep(hunks: seq<Hunk>, i: nat)
    requires i < |hunks|
    ensures LineTotal(hunks[i..]) == |hunks[i].lines| + LineTotal(hunks[i + 1..])
    ensures CountAll(hunks[i..], Inserted) == CountKind(hunks[i].lines, Inserted) + CountAll(hunks[i + 1..], Inserted)
    ensures CountAll(hunks[i..], Deleted) == CountKind(hunks[i].lines, Deleted) + CountAll(hunks[i + 1..], Deleted)
  {
    hide CountKind;
    assert hunks[i..][0] == hunks[i] && hunks[i..][1..] == hunks[i + 1..];
  }

  lemma TotalsEnd(hunks: seq<Hunk>)
    ensures hunks[0..] == hunks
    ensures var none := hunks[|hunks|..];
            LineTotal(none) == 0 && CountAll(none, Inserted) == 0 && CountAll(none, Deleted) == 0
  {
  }

  method DecodeDiff(d: Diff, fromId: string, toId: string) returns (ok: bool)
    ensures ok == DiffAccepted(d, fromId, toId)
  {
    if !IsSafe(d.additions) || !IsSafe(d.deletions) || !DocumentAccepted(d.from, fromId)
      || !DocumentAccepted(d.to, toId) {
      return false;
    }
    if d.from.summary.byteLength > MAX_READ_BYTES || d.to.summary.byteLength > MAX_READ_BYTES
      || d.from.summary.byteLength + d.to.summary.byteLength > MAX_READ_BYTES {
      return false;
    }
    if d.additions > MAX_READ_LINES || d.deletions > MAX_READ_LINES || |d.hunks| > MAX_READ_LINES {
      return false;
    }
    hide HunkAccepted, DocumentAccepted, CountAll, LineTotal, InOrder, SameMetadata, IsSafe;
    var decoded, total, actualAdditions, actualDeletions := DecodeHunks(d.hunks);
    if !decoded {
      return false;
    }
    if total > MAX_READ_LINES || actualAdditions != d.additions || actualDeletions != d.deletions {
      return false;
    }
    var inOrder := DecodeOrder(d.hunks);
    if !inOrder {
      return false;
    }
    var sameByteMetadata := SameMetadata(d.from, d.to);
    if d.from.summary.id == d.to.summary.id && !sameByteMetadata {
      return false;
    }
    var sameIdentity := d.from.summary.id == d.to.summary.id || d.from.summary.contentHash == d.to.summary.contentHash;
    if sameIdentity != d.identical {
      return false;
    }
    ok := !(d.identical && (!sameByteMetadata || d.additions != 0 || d.deletions != 0 || d.hunks != []));
  }

  method DecodeHunks(hunks: seq<Hunk>) returns (ok: bool, total: nat, additions: nat, deletions: nat)
    ensures ok == forall i | 0 <= i < |hunks| :: HunkAccepted(hunks[i])
    ensures ok ==>
              && total == LineTotal(hunks)
              && additions == CountAll(hunks, Inserted) && deletions == CountAll(hunks, Deleted)
  {
    hide HunkAccepted, CountKind, CountAll, LineTotal;
    TotalsEnd(hunks);
    total, additions, deletions := 0, 0, 0;
    for i := 0 to |hunks|
      invariant forall j | 0 <= j < i :: HunkAccepted(hunks[j])
      invariant total + LineTotal(hunks[i..]) == LineTotal(hunks)
      invariant additions + CountAll(hunks[i..], Inserted) == CountAll(hunks, Inserted)
      invariant deletions + CountAll(hunks[i..], Deleted) == CountAll(hunks, Deleted)
    {
      var decoded := DecodeHunk(hunks[i]);
      if !decoded {
        return false, total, additions, deletions;
      }
      TotalsStep(hunks, i);
      total := total + |hunks[i].lines|;
      additions := additions + CountKind(hunks[i].lines, Inserted);
      deletions := deletions + CountKind(hunks[i].lines, Deleted);
    }
    ok := true;
  }

  method DecodeOrder(hunks: seq<Hunk>) returns (ok: bool)
    ensures ok == InOrder(hunks, 1, 1)
  {
    var previousOldEnd: nat, previousNewEnd: nat := 1, 1;
    for i := 0 to |hunks|
      invariant InOrder(hunks[i..], previousOldEnd, previousNewEnd) == InOrder(hunks, 1, 1)
    {
      var h := hunks[i];
      assert hunks[i..][0] == h && hunks[i..][1..] == hunks[i + 1..];
      var oldEnd, newEnd := h.oldStart + h.oldCount, h.newStart + h.newCount;
      if !IsSafe(oldEnd) || !IsSafe(newEnd) || h.oldStart < previousOldEnd || h.newStart < previousNewEnd {
        return false;
      }
      previousOldEnd, previousNewEnd := oldEnd, newEnd;
    }
    ok := true;
  }

  // ---- everything the service emits is accepted -----------------------------

  predicate TokensFit(tokens: seq<Token>) {
    |tokens| <= MAX_INPUT_BYTES && forall i | 0 <= i < |tokens| :: LF !in tokens[i].text && tokens[i].ending != Mixed
  }

  lemma FitsWithin(b: seq<byte>)
    requires |b| <= MAX_INPUT_BYTES
    ensures TokensFit(Tokens(b))
  {
    TokensOk(b);
    forall i | 0 <= i < |Tokens(b)|
      ensures LF !in Tokens(b)[i].text && Tokens(b)[i].ending != Mixed
    {
      assert TokenOk(Tokens(b)[i], i == |Tokens(b)| - 1);
    }
  }

  lemma {:induction false} WalkConcat(x: seq<Line>, y: seq<Line>, o: nat, n: nat)
    requires Walk(x, o, n).Some?
    ensures Walk(x + y, o, n) == Walk(y, Walk(x, o, n).value.0, Walk(x, o, n).value.1)
    decreases |x|
  {
    if x == [] {
      assert x + y == y;
    } else {
      assert (x + y)[0] == x[0] && (x + y)[1..] == x[1..] + y;
      WalkConcat(x[1..], y, if x[0].kind == Inserted then o else o + 1, if x[0].kind == Deleted then n else n + 1);
    }
  }

  lemma {:induction false} WalkContext(before: seq<Token>, o: nat, n: nat, count: nat)
    requires o + count <= |before|
    ensures Walk(ContextLines(before, o, n, count), o + 1, n + 1) == Some((o + count + 1, n + count + 1))
    decreases count
  {
    hide ContextLines;
    if count > 0 {
      ContextCons(before, o, n, count);
      WalkContext(before, o + 1, n + 1, count - 1);
    } else {
      NoContext(before, o, n);
    }
  }

  lemma {:induction false} WalkDeleted(before: seq<Token>, o1: nat, o2: nat, n: nat)
    requires o1 <= o2 <= |before|
    ensures Walk(DeletedLines(before, o1, o2), o1 + 1, n) == Some((o2 + 1, n))
    decreases o2 - o1
  {
    if o1 < o2 {
      assert DeletedLines(before, o1, o2)[1..] == DeletedLines(before, o1 + 1, o2);
      WalkDeleted(before, o1 + 1, o2, n);
    }
  }

  lemma {:induction false} WalkInserted(after: seq<Token>, n1: nat, n2: nat, o: nat)
    requires n1 <= n2 <= |after|
    ensures Walk(InsertedLines(after, n1, n2), o, n1 + 1) == Some((o, n2 + 1))
    decreases n2 - n1
  {
    if n1 < n2 {
      assert InsertedLines(after, n1, n2)[1..] == InsertedLines(after, n1 + 1, n2);
      WalkInserted(after, n1 + 1, n2, o);
    }
  }

  lemma WalkOp(op: Op, before: seq<Token>, after: seq<Token>)
    requires OpOk(op, before, after)
    ensures Walk(OpLines(op, before, after), op.o1 + 1, op.n1 + 1) == Some((op.o2 + 1, op.n2 + 1))
  {
    hide Walk, ContextLines, DeletedLines, InsertedLines;
    OpSizes(op, before, after);
    match op.tag
    case Equal => WalkContext(before, op.o1, op.n1, op.o2 - op.o1);
    case Delete => WalkDeleted(before, op.o1, op.o2, op.n1 + 1);
    case Insert => WalkInserted(after, op.n1, op.n2, op.o1 + 1);
    case Replace =>
      WalkDeleted(before, op.o1, op.o2, op.n1 + 1);
      WalkInserted(after, op.n1, op.n2, op.o2 + 1);
      WalkConcat(DeletedLines(before, op.o1, op.o2), InsertedLines(after, op.n1, op.n2), op.o1 + 1, op.n1 + 1);
  }

  lemma {:induction false} WalkGroup(group: seq<Op>, o: nat, n: nat, before: seq<Token>, after: seq<Token>)
    requires AllOk(group, before, after) && Contiguous(group, o, n)
    ensures Walk(GroupLines(group, before, after), o + 1, n + 1)
            == Some((EndOf(group, o, n).0 + 1, EndOf(group, o, n).1 + 1))
    decreases |group|
  {
    hide OpLines, OpOk;
    if group != [] {
      hide Walk;
      WalkOp(group[0], before, after);
      WalkGroup(group[1..], group[0].o2, group[0].n2, before, after);
      WalkConcat(OpLines(group[0], before, after), GroupLines(group[1..], before, after), o + 1, n + 1);
    }
  }

  predicate AllAccepted(lines: seq<Line>) {
    forall i | 0 <= i < |lines| :: LineAccepted(lines[i])
  }

  lemma OpAccepted(op: Op, before: seq<Token>, after: seq<Token>)
    requires OpOk(op, before, after) && TokensFit(before) && TokensFit(after)
    ensures AllAccepted(OpLines(op, before, after))
  {
    hide AllAccepted, DeletedLines, InsertedLines, LineAccepted, TokensFit;
    OpSizes(op, before, after);
    match op.tag
    case Equal => ContextAccepted(op, before, after);
    case Delete => DeletedAccepted(before, op.o1, op.o2);
    case Insert => InsertedAccepted(after, op.n1, op.n2);
    case Replace =>
      DeletedAccepted(before, op.o1, op.o2);
      InsertedAccepted(after, op.n1, op.n2);
      AcceptedConcat(DeletedLines(before, op.o1, op.o2), InsertedLines(after, op.n1, op.n2));
  }

  lemma ContextAccepted(op: Op, before: seq<Token>, after: seq<Token>)
    requires op.tag == Equal && OpOk(op, before, after) && TokensFit(before) && TokensFit(after)
    ensures AllAccepted(OpLines(op, before, after))
  {
  }

  lemma OpChanges(op: Op, before: seq<Token>, after: seq<Token>)
    requires OpOk(op, before, after) && !op.tag.Equal?
    ensures HasChange(OpLines(op, before, after))
  {
    OpSizes(op, before, after);
    assert OpLines(op, before, after)[0].kind != Context;
  }

  lemma AcceptedConcat(x: seq<Line>, y: seq<Line>)
    requires AllAccepted(x) && AllAccepted(y)
    ensures AllAccepted(x + y)
  {
    hide LineAccepted;
  }

  lemma ChangeConcat(x: seq<Line>, y: seq<Line>)
    requires HasChange(x) || HasChange(y)
    ensures HasChange(x + y)
  {
    if HasChange(x) {
      var i :| 0 <= i < |x| && x[i].kind != Context;
      assert (x + y)[i].kind != Context;
    } else {
      var i :| 0 <= i < |y| && y[i].kind != Context;
      assert (x + y)[|x| + i].kind != Context;
    }
  }

  lemma DeletedAccepted(before: seq<Token>, o1: nat, o2: nat)
    requires o1 <= o2 <= |before| && TokensFit(before)
    ensures AllAccepted(DeletedLines(before, o1, o2))
  {
  }

  lemma InsertedAccepted(after: seq<Token>, n1: nat, n2: nat)
    requires n1 <= n2 <= |after| && TokensFit(after)
    ensures AllAccepted(InsertedLines(after, n1, n2))
  {
  }

  lemma {:induction false} GroupAccepted(group: seq<Op>, before: seq<Token>, after: seq<Token>)
    requires AllOk(group, before, after) && TokensFit(before) && TokensFit(after)
    ensures AllAccepted(GroupLines(group, before, after))
    decreases |group|
  {
    if group != [] {
      hide AllAccepted, OpLines, OpOk, TokensFit;
      OpAccepted(group[0], before, after);
      GroupAccepted(group[1..], before, after);
      AcceptedConcat(OpLines(group[0], before, after), GroupLines(group[1..], before, after));
    }
  }

  lemma {:induction false} GroupChanges(group: seq<Op>, before: seq<Token>, after: seq<Token>)
    requires AllOk(group, before, after) && Changes(group) != []
    ensures HasChange(GroupLines(group, before, after))
    decreases |group|
  {
    hide HasChange, OpLines, OpOk, Changes;
    if group != [] {
      ChangesStep(group);
      if group[0].tag.Equal? {
        GroupChanges(group[1..], before, after);
      } else {
        OpChanges(group[0], before, after);
      }
      ChangeConcat(OpLines(group[0], before, after), GroupLines(group[1..], before, after));
    } else {
      NoChanges();
    }
  }

  lemma NoChanges()
    ensures Changes([]) == []
  {
  }

  lemma ServerHunkAccepted(group: seq<Op>, before: seq<Token>, after: seq<Token>)
    requires GroupOk(group, before, after) && TokensFit(before) && TokensFit(after)
    requires |GroupLines(group, before, after)| <= MAX_OUTPUT_LINES
    ensures HunkAccepted(HunkOf(group, before, after))
  {
    hide Walk, GroupLines, LineAccepted, OpOk;
    var o, n := group[0].o1, group[0].n1;
    OpSizes(group[0], before, after);
    ApplyGroup(group, o, n, before, after, true);
    WalkGroup(group, o, n, before, after);
    GroupAccepted(group, before, after);
    GroupChanges(group, before, after);
  }

  lemma {:induction false} CountConcat(x: seq<Line>, y: seq<Line>, kind: Kind)
    ensures CountKind(x + y, kind) == CountKind(x, kind) + CountKind(y, kind)
  {
    if x == [] {
      assert x + y == y;
    } else {
      assert (x + y)[0] == x[0] && (x + y)[1..] == x[1..] + y;
      CountConcat(x[1..], y, kind);
    }
  }

  lemma {:induction false} CountSame(lines: seq<Line>, own: Kind, kind: Kind)
    requires forall i | 0 <= i < |lines| :: lines[i].kind == own
    ensures CountKind(lines, kind) == if kind == own then |lines| else 0
  {
    if lines != [] {
      CountSame(lines[1..], own, kind);
    }
  }

  lemma CountOp(op: Op, before: seq<Token>, after: seq<Token>)
    requires OpOk(op, before, after)
    ensures CountKind(OpLines(op, before, after), Inserted) == if op.tag.Equal? then 0 else op.n2 - op.n1
    ensures CountKind(OpLines(op, before, after), Deleted) == if op.tag.Equal? then 0 else op.o2 - op.o1
  {
    hide CountKind;
    match op.tag
    case Equal =>
      CountSame(OpLines(op, before, after), Context, Inserted);
      CountSame(OpLines(op, before, after), Context, Deleted);
    case Delete =>
      CountSame(OpLines(op, before, after), Deleted, Inserted);
      CountSame(OpLines(op, before, after), Deleted, Deleted);
    case Insert =>
      CountSame(OpLines(op, before, after), Inserted, Inserted);
      CountSame(OpLines(op, before, after), Inserted, Deleted);
    case Replace =>
      var gone, come := DeletedLines(before, op.o1, op.o2), InsertedLines(after, op.n1, op.n2);
      CountSame(gone, Deleted, Inserted);
      CountSame(gone, Deleted, Deleted);
      CountSame(come, Inserted, Inserted);
      CountSame(come, Inserted, Deleted);
      CountConcat(gone, come, Inserted);
      CountConcat(gone, come, Deleted);
  }

  lemma {:induction false} CountGroup(group: seq<Op>, before: seq<Token>, after: seq<Token>)
    requires AllOk(group, before, after)
    ensures CountKind(GroupLines(group, before, after), Inserted) == SumNew(Changes(group))
    ensures CountKind(GroupLines(group, before, after), Deleted) == SumOld(Changes(group))
    decreases |group|
  {
    hide OpLines, OpOk;
    if group != [] {
      hide CountKind;
      var first, rest := OpLines(group[0], before, after), GroupLines(group[1..], before, after);
      CountOp(group[0], before, after);
      CountGroup(group[1..], before, after);
      CountConcat(first, rest, Inserted);
      CountConcat(first, rest, Deleted);
      ChangesStep(group);
    }
  }

  lemma {:induction false} SumConcat(x: seq<Op>, y: seq<Op>)
    ensures SumNew(x + y) == SumNew(x) + SumNew(y) && SumOld(x + y) == SumOld(x) + SumOld(y)
  {
    if x == [] {
      assert x + y == y;
    } else {
      assert (x + y)[0] == x[0] && (x + y)[1..] == x[1..] + y;
      SumConcat(x[1..], y);
    }
  }

  /** The totals of the library's script are the totals of the emitted lines. */
  lemma {:induction false} CountGroups(groups: seq<seq<Op>>, before: seq<Token>, after: seq<Token>)
    requires forall i | 0 <= i < |groups| :: GroupOk(groups[i], before, after)
    ensures CountAll(HunksOf(groups, before, after), Inserted) == SumNew(Changes(Flatten(groups)))
    ensures CountAll(HunksOf(groups, before, after), Deleted) == SumOld(Changes(Flatten(groups)))
    decreases |groups|
  {
    hide GroupLines, OpOk, CountKind;
    if groups != [] {
      HunksCons(groups, before, after);
      HunkParts(groups[0], before, after);
      CountGroup(groups[0], before, after);
      CountGroups(groups[1..], before, after);
      ChangesConcat(groups[0], Flatten(groups[1..]));
      SumConcat(Changes(groups[0]), Changes(Flatten(groups[1..])));
    }
  }

  lemma {:induction false} ServerInOrder(groups: seq<seq<Op>>, o: nat, n: nat, before: seq<Token>, after: seq<Token>)
    requires GroupsFrom(groups, o, n, before, after) && TokensFit(before) && TokensFit(after)
    requires forall i | 0 <= i < |groups| :: GroupOk(groups[i], before, after)
    ensures InOrder(HunksOf(groups, before, after), o + 1, n + 1)
    decreases |groups|
  {
    hide GroupLines, OpOk, HunksOf;
    if groups == [] {
      NoHunks(before, after);
    } else {
      var g := groups[0];
      HunksCons(groups, before, after);
      OpSizes(g[0], before, after);
      ScriptBounds(g, before, after);
      EndAfterStart(g, g[0].o1, g[0].n1);
      ApplyGroup(g, g[0].o1, g[0].n1, before, after, true);
      var (o', n') := EndOf(g, 0, 0);
      ServerInOrder(groups[1..], o', n', before, after);
    }
  }

  lemma NoHunks(before: seq<Token>, after: seq<Token>)
    ensures HunksOf([], before, after) == []
  {
  }

  lemma {:induction false} TotalBounds(hunks: seq<Hunk>)
    requires forall i | 0 <= i < |hunks| :: hunks[i].lines != []
    ensures |hunks| <= LineTotal(hunks)
    ensures forall i | 0 <= i < |hunks| :: |hunks[i].lines| <= LineTotal(hunks)
  {
    if hunks != [] {
      TotalBounds(hunks[1..]);
      assert forall i | 1 <= i < |hunks| :: hunks[i] == hunks[1..][i - 1];
    }
  }

  lemma {:induction false} CountBound(hunks: seq<Hunk>, kind: Kind)
    ensures CountAll(hunks, kind) <= LineTotal(hunks)
  {
    if hunks != [] {
      CountBoundLines(hunks[0].lines, kind);
      CountBound(hunks[1..], kind);
    }
  }

  lemma {:induction false} CountBoundLines(lines: seq<Line>, kind: Kind)
    ensures CountKind(lines, kind) <= |lines|
  {
    if lines != [] {
      CountBoundLines(lines[1..], kind);
    }
  }

  /** What the storage layer guarantees of a source it hands to the diff: a well-formed summary of it. */
  predicate Stored(s: DiffSource) {
    SummaryAccepted(s.summary) && s.summary.byteLength == |s.source|
  }

  lemma {:induction false} ServerHunksAccepted(groups: seq<seq<Op>>, before: seq<Token>, after: seq<Token>)
    requires forall i | 0 <= i < |groups| :: GroupOk(groups[i], before, after)
    requires TokensFit(before) && TokensFit(after)
    requires LineTotal(HunksOf(groups, before, after)) <= MAX_OUTPUT_LINES
    ensures var hunks := HunksOf(groups, before, after);
            |hunks| <= LineTotal(hunks) && forall i | 0 <= i < |hunks| :: HunkAccepted(hunks[i])
    decreases |groups|
  {
    hide GroupLines, GroupOk, HunkAccepted, HunkOf, TokensFit;
    if groups != [] {
      HunksCons(groups, before, after);
      HunkParts(groups[0], before, after);
      ServerHunksAccepted(groups[1..], before, after);
      ServerHunkAccepted(groups[0], before, after);
      AcceptedNotEmpty(HunkOf(groups[0], before, after));
      var hunks := HunksOf(groups, before, after);
      assert forall i | 1 <= i < |hunks| :: hunks[i] == hunks[1..][i - 1];
    }
  }

  lemma AcceptedNotEmpty(h: Hunk)
    requires HunkAccepted(h)
    ensures h.lines != []
  {
  }

  /** THE REFINEMENT. For every script and grouping the library may return, if equal ids and equal hashes
      mean equal bytes, whatever the service returns passes every check of the client. */
  lemma ClientAcceptsServer(from: DiffSource, to: DiffSource, ops: seq<Op>, groups: seq<seq<Op>>)
    requires ValidScript(ops, TokensOf(from), TokensOf(to)) && ValidGroups(groups, ops, TokensOf(from), TokensOf(to))
    requires Stored(from) && Stored(to) && WithinLimits(from, to)
    requires from.source == to.source <==> from.summary.contentHash == to.summary.contentHash
    requires from.summary.id == to.summary.id ==> from.source == to.source
    requires FullDiff(from, to, ops, groups).Some?
    ensures DiffAccepted(FullDiff(from, to, ops, groups).value, from.summary.id, to.summary.id)
  {
    hide Tokens, ValidScript, GroupsFrom, GroupOk, HasBom, LineEndingOf, HunkAccepted, InOrder, TokensFit,
      SummaryAccepted, Changes, Flatten, HunksOf;
    var before, after := TokensOf(from), TokensOf(to);
    FitsWithin(Body(from.source));
    FitsWithin(Body(to.source));
    SummarySafe(from.summary);
    if !SameIdentity(from, to) {
      GroupsAllOk(groups, 0, 0, before, after);
      var hunks := HunksOf(groups, before, after);
      ServerHunksAccepted(groups, before, after);
      CountGroups(groups, before, after);
      CountBound(hunks, Inserted);
      CountBound(hunks, Deleted);
      ServerInOrder(groups, 0, 0, before, after);
    } else {
      NothingAccepted();
    }
  }

  lemma SummarySafe(s: Summary)
    requires SummaryAccepted(s)
    ensures IsSafe(0) && IsSafe(MAX_OUTPUT_LINES)
  {
  }

  lemma NothingAccepted()
    ensures InOrder([], 1, 1)
  {
  }
}
