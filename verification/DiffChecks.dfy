/** What the browser's checks of a diff and of a page amount to (`httpApi.ts`): every number is determined by the lines
    before it, hunks are in order and apart, totals are those of the lines, and nothing else is asked. */
module DiffChecks {
  import opened Wrappers
  import opened Document
  import opened DiffHunks
  import opened DiffClient
  import opened RevisionPages

  // ---- ids, hashes and numbers ----------------------------------------------

  const SAFE: int := 9007199254740991

  predicate IsControl(c: char) {
    c as int in [0, 1, 2, 3, 4, 5, 6, 7, 8, 9, 10, 11, 12, 13, 14, 15, 16, 17, 18, 19, 20, 21, 22, 23, 24, 25, 26, 27,
                 28,
      29, 30, 31, 127]
  }

  predicate IsId(id: string) {
    1 <= |id| <= 128 && forall i | 0 <= i < |id| :: !IsControl(id[i])
  }

  lemma IdMeans(id: string)
    ensures IsRevisionId(id) <==> IsId(id)
  {
    hide IsControl;
    forall i | 0 <= i < |id|
      ensures id[i] >= ' ' && id[i] as int != 0x7F <==> !IsControl(id[i])
    {
      ControlMeans(id[i]);
    }
  }

  lemma ControlMeans(c: char)
    ensures c >= ' ' && c as int != 0x7F <==> !IsControl(c)
  {
  }

  predicate IsDigest(hash: string) {
    |hash| == 64 && forall i | 0 <= i < 64 :: hash[i] in "0123456789abcdef"
  }

  lemma DigestMeans(hash: string)
    ensures IsHash(hash) <==> IsDigest(hash)
  {
    forall c: char
      ensures '0' <= c <= '9' || 'a' <= c <= 'f' <==> c in "0123456789abcdef"
    {
      HexMeans(c);
    }
  }

  lemma HexMeans(c: char)
    ensures '0' <= c <= '9' || 'a' <= c <= 'f' <==> c in "0123456789abcdef"
  {
  }

  predicate IsSummary(s: Summary) {
    && IsId(s.id) && 1 <= s.revisionNo <= SAFE && (s.parentId.Some? ==> IsId(s.parentId.value))
    && s.byteLength <= SAFE && IsDigest(s.contentHash)
  }

  lemma SummaryMeans(s: Summary)
    ensures SummaryAccepted(s) <==> IsSummary(s)
  {
    hide IsId, IsDigest, IsRevisionId, IsHash;
    IdMeans(s.id);
    if s.parentId.Some? {
      IdMeans(s.parentId.value);
    }
    DigestMeans(s.contentHash);
  }

  // ---- hunks ----------------------------------------------------------------

  /** How many of the first `n` lines are of the kind. */
  function Those(lines: seq<Line>, n: nat, kind: Kind): (k: nat)
    requires n <= |lines|
    ensures k <= n
  {
    if n == 0 then 0 else Those(lines, n - 1, kind) + if lines[n - 1].kind == kind then 1 else 0
  }

  /** The others stand on the side that the kind is missing from. */
  function Others(lines: seq<Line>, n: nat, kind: Kind): nat
    requires n <= |lines|
  {
    n - Those(lines, n, kind)
  }

  /** Line `i` has on each side just the number that the lines before it leave for it. */
  predicate LineFits(h: Hunk, i: nat)
    requires i < |h.lines|
  {
    var line := h.lines[i];
    && line.oldNo == (if line.kind == Inserted then None else Some(h.oldStart + Others(h.lines, i, Inserted)))
    && line.newNo == (if line.kind == Deleted then None else Some(h.newStart + Others(h.lines, i, Deleted)))
    && (line.oldNo.Some? ==> line.oldNo.value <= SAFE) && (line.newNo.Some? ==> line.newNo.value <= SAFE)
    && 0x0A !in line.text && line.ending in [NoEnding, Lf, CrLf]
  }

  predicate HunkFits(h: Hunk) {
    && 1 <= h.oldStart <= SAFE && 1 <= h.newStart <= SAFE && h.oldCount <= SAFE && h.newCount <= SAFE
    && 1 <= |h.lines| <= 10000 && (exists i | 0 <= i < |h.lines| :: h.lines[i].kind in [Deleted, Inserted])
    && (forall i | 0 <= i < |h.lines| :: LineFits(h, i))
    && h.oldCount == Others(h.lines, |h.lines|, Inserted) && h.newCount == Others(h.lines, |h.lines|, Deleted)
  }

  /** The walk from line `i` on, in closed form. */
  predicate NumbersFrom(lines: seq<Line>, oldStart: nat, newStart: nat, i: nat)
    requires i <= |lines|
  {
    forall j | i <= j < |lines| ::
      Expected(lines[j], oldStart + Others(lines, j, Inserted), newStart + Others(lines, j, Deleted))
  }

  lemma OthersStep(lines: seq<Line>, i: nat, kind: Kind)
    requires i < |lines|
    ensures Others(lines, i + 1, kind) == Others(lines, i, kind) + if lines[i].kind == kind then 0 else 1
  {
  }

  lemma {:induction false} WalkMeans(lines: seq<Line>, oldStart: nat, newStart: nat, i: nat)
    requires i <= |lines|
    ensures var r := Walk(lines[i..], oldStart + Others(lines, i, Inserted), newStart + Others(lines, i, Deleted));
            && (r.Some? <==> NumbersFrom(lines, oldStart, newStart, i))
            && (r.Some? ==> r.value == (oldStart + Others(lines, |lines|, Inserted),
                                        newStart + Others(lines, |lines|, Deleted)))
    decreases |lines| - i
  {
    hide Expected, Others, Walk;
    if i < |lines| {
      WalkMeans(lines, oldStart, newStart, i + 1);
      OthersStep(lines, i, Inserted);
      OthersStep(lines, i, Deleted);
      WalkLine(lines, i, oldStart + Others(lines, i, Inserted), newStart + Others(lines, i, Deleted));
    } else {
      assert lines[i..] == [];
      WalkNothing(oldStart + Others(lines, i, Inserted), newStart + Others(lines, i, Deleted));
    }
  }

  lemma WalkNothing(o: nat, n: nat)
    ensures Walk([], o, n) == Some((o, n))
  {
  }

  lemma LineMeans(h: Hunk, i: nat)
    requires i < |h.lines| && 1 <= h.oldStart && 1 <= h.newStart
    ensures LineAccepted(h.lines[i])
            && Expected(h.lines[i], h.oldStart + Others(h.lines, i, Inserted), h.newStart + Others(h.lines, i, Deleted))
            <==> LineFits(h, i)
  {
    hide Others;
  }

  /** A hunk is accepted exactly when every line has the number that the lines before it leave for it, the counts are
      those of the lines, and something changes. */
  lemma HunkMeans(h: Hunk)
    ensures HunkAccepted(h) <==> HunkFits(h)
  {
    hide LineAccepted, Expected, LineFits, Walk, Others;
    if 1 <= h.oldStart && 1 <= h.newStart {
      NoLines(h.lines);
      WalkMeans(h.lines, h.oldStart, h.newStart, 0);
      assert h.lines[0..] == h.lines;
      forall i: nat | i < |h.lines|
        ensures LineFits(h, i)
                <==> LineAccepted(h.lines[i])
                     && Expected(h.lines[i], h.oldStart + Others(h.lines, i, Inserted),
                                 h.newStart + Others(h.lines, i, Deleted))
      {
        LineMeans(h, i);
      }
    }
  }

  lemma NoLines(lines: seq<Line>)
    ensures Others(lines, 0, Inserted) == Others(lines, 0, Deleted) == 0
  {
  }

  // ---- diffs ----------------------------------------------------------------

  /** How many lines the first `n` hunks have, and how many of a kind. */
  function AllLines(hunks: seq<Hunk>, n: nat): nat
    requires n <= |hunks|
  {
    if n == 0 then 0 else AllLines(hunks, n - 1) + |hunks[n - 1].lines|
  }

  function AllThose(hunks: seq<Hunk>, n: nat, kind: Kind): nat
    requires n <= |hunks|
  {
    if n == 0 then 0 else AllThose(hunks, n - 1, kind) + Those(hunks[n - 1].lines, |hunks[n - 1].lines|, kind)
  }

  /** In order and apart on both sides, with ends that are safe numbers. */
  predicate Apart(hunks: seq<Hunk>) {
    && (forall i | 0 <= i < |hunks| ::
          hunks[i].oldStart + hunks[i].oldCount <= SAFE && hunks[i].newStart + hunks[i].newCount <= SAFE)
    && forall i, j | 0 <= i < j < |hunks| ::
         && hunks[i].oldStart + hunks[i].oldCount <= hunks[j].oldStart
         && hunks[i].newStart + hunks[i].newCount <= hunks[j].newStart
  }

  predicate SameBytes(a: DiffDocument, b: DiffDocument) {
    a.(summary := b.summary) == b && (a.summary.contentHash, a.summary.byteLength)
      == (b.summary.contentHash, b.summary.byteLength)
  }

  predicate DiffFits(d: Diff, fromId: string, toId: string) {
    && IsSummary(d.from.summary) && d.from.summary.id == fromId && IsSummary(d.to.summary) && d.to.summary.id == toId
    && d.from.summary.byteLength + d.to.summary.byteLength <= 8388608
    && (forall i | 0 <= i < |d.hunks| :: HunkFits(d.hunks[i])) && Apart(d.hunks)
       && AllLines(d.hunks, |d.hunks|) <= 10000
    && d.additions == AllThose(d.hunks, |d.hunks|, Inserted) && d.deletions == AllThose(d.hunks, |d.hunks|, Deleted)
    && (d.identical <==> fromId == toId || d.from.summary.contentHash == d.to.summary.contentHash)
    && (fromId == toId || d.identical ==> SameBytes(d.from, d.to)) && (d.identical ==> d.hunks == [])
  }

  lemma {:induction false} CountMeans(lines: seq<Line>, kind: Kind, i: nat)
    requires i <= |lines|
    ensures CountKind(lines[i..], kind) + Those(lines, i, kind) == Those(lines, |lines|, kind)
    decreases |lines| - i
  {
    if i < |lines| {
      CountMeans(lines, kind, i + 1);
      assert lines[i..][0] == lines[i] && lines[i..][1..] == lines[i + 1..];
    }
  }

  lemma {:induction false} TotalsMean(hunks: seq<Hunk>, kind: Kind, i: nat)
    requires i <= |hunks|
    ensures CountAll(hunks[i..], kind) + AllThose(hunks, i, kind) == AllThose(hunks, |hunks|, kind)
    ensures LineTotal(hunks[i..]) + AllLines(hunks, i) == AllLines(hunks, |hunks|)
    decreases |hunks| - i
  {
    hide Those, CountKind;
    if i < |hunks| {
      TotalsMean(hunks, kind, i + 1);
      assert hunks[i..][0] == hunks[i] && hunks[i..][1..] == hunks[i + 1..];
      var lines := hunks[i].lines;
      CountMeans(lines, kind, 0);
      assert lines[0..] == lines;
      NoneYet(lines, kind);
    }
  }

  lemma NoneYet(lines: seq<Line>, kind: Kind)
    ensures Those(lines, 0, kind) == 0
  {
  }

  lemma {:induction false} OrderMeans(hunks: seq<Hunk>, oldEnd: nat, newEnd: nat)
    ensures InOrder(hunks, oldEnd, newEnd)
            <==> Apart(hunks) && (hunks != [] ==> hunks[0].oldStart >= oldEnd && hunks[0].newStart >= newEnd)
  {
    if hunks != [] {
      var (h, rest) := (hunks[0], hunks[1..]);
      OrderMeans(rest, h.oldStart + h.oldCount, h.newStart + h.newCount);
      assert forall i | 0 <= i < |rest| :: rest[i] == hunks[i + 1];
      if InOrder(hunks, oldEnd, newEnd) {
        forall i, j | 0 <= i < j < |hunks|
          ensures hunks[i].oldStart + hunks[i].oldCount <= hunks[j].oldStart
          ensures hunks[i].newStart + hunks[i].newCount <= hunks[j].newStart
        {
          assert hunks[j] == rest[j - 1];
          if i > 0 {
            assert hunks[i] == rest[i - 1];
          }
        }
      }
      if Apart(hunks) {
        assert forall i, j | 0 <= i < j < |rest| :: rest[i] == hunks[i + 1] && rest[j] == hunks[j + 1];
      }
    }
  }

  /** WHAT THE BROWSER ACCEPTS: exactly the diffs between the two revisions that it asked for whose hunks fit, stand in
      order and apart, and add up; those of one revision or one content must carry the same metadata and no hunk. */
  lemma DiffMeans(d: Diff, fromId: string, toId: string)
    ensures DiffAccepted(d, fromId, toId) <==> DiffFits(d, fromId, toId)
  {
    hide SummaryAccepted, IsSummary, HunkAccepted, HunkFits, CountAll, LineTotal, AllLines, AllThose, InOrder, Apart;
    SummaryMeans(d.from.summary);
    SummaryMeans(d.to.summary);
    forall i | 0 <= i < |d.hunks|
      ensures HunkAccepted(d.hunks[i]) <==> HunkFits(d.hunks[i])
    {
      HunkMeans(d.hunks[i]);
    }
    TotalsStart(d.hunks);
    TotalsMean(d.hunks, Inserted, 0);
    TotalsMean(d.hunks, Deleted, 0);
    assert d.hunks[0..] == d.hunks;
    OrderMeans(d.hunks, 1, 1);
    FitBounds(d.hunks);
  }

  lemma TotalsStart(hunks: seq<Hunk>)
    ensures AllLines(hunks, 0) == 0 && AllThose(hunks, 0, Inserted) == 0 && AllThose(hunks, 0, Deleted) == 0
  {
  }

  /** Totals within the limits keep the other numbers within theirs. */
  lemma {:induction false} SizesBound(hunks: seq<Hunk>, n: nat)
    requires n <= |hunks| && forall i | 0 <= i < |hunks| :: |hunks[i].lines| >= 1
    ensures n <= AllLines(hunks, n)
    ensures AllThose(hunks, n, Inserted) <= AllLines(hunks, n) && AllThose(hunks, n, Deleted) <= AllLines(hunks, n)
  {
    hide Those;
    if n > 0 {
      SizesBound(hunks, n - 1);
    }
  }

  lemma FitBounds(hunks: seq<Hunk>)
    ensures (forall i | 0 <= i < |hunks| :: HunkFits(hunks[i])) ==>
              && |hunks| <= AllLines(hunks, |hunks|)
              && AllThose(hunks, |hunks|, Inserted) <= AllLines(hunks, |hunks|)
              && AllThose(hunks, |hunks|, Deleted) <= AllLines(hunks, |hunks|)
              && (hunks != [] ==> 1 <= hunks[0].oldStart && 1 <= hunks[0].newStart)
  {
    hide LineFits, Others;
    if forall i | 0 <= i < |hunks| :: HunkFits(hunks[i]) {
      SizesBound(hunks, |hunks|);
    }
  }

  // ---- pages ----------------------------------------------------------------

  predicate PageFits(page: Page, requestCursor: Option<string>) {
    var (items, n) := (page.items, |page.items|);
    && (forall i | 0 <= i < n :: IsSummary(items[i].summary))
    && (forall i, j | 0 <= i < j < n ::
          && items[i].summary.id != items[j].summary.id
          && !(items[i].isCurrent && items[j].isCurrent) && !(items[i].isServed && items[j].isServed))
    && match page.nextCursor
       case None => true
       case Some(cursor) => n > 0 && cursor == items[n - 1].summary.id && requestCursor != Some(cursor)
  }

  /** A page is accepted exactly when its summaries are well formed, no two items share an id or a mark, and its cursor,
      if any, is that of its last item and not the one that was asked for. */
  lemma PageMeans(page: Page, requestCursor: Option<string>)
    ensures PageAccepted(page, requestCursor) <==> PageFits(page, requestCursor)
  {
    hide SummaryAccepted, IsSummary, Ids, Marks;
    IdsAre(page.items);
    forall i | 0 <= i < |page.items|
      ensures SummaryAccepted(page.items[i].summary) <==> IsSummary(page.items[i].summary)
      ensures IsSummary(page.items[i].summary) ==> 0 < |page.items[i].summary.id| <= 128
    {
      SummaryMeans(page.items[i].summary);
      IdLength(page.items[i].summary);
    }
  }

  lemma IdLength(s: Summary)
    ensures IsSummary(s) ==> 0 < |s.id| <= 128
  {
  }
}
