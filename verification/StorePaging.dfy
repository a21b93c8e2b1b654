/** Cursor paging over the revision table (`storage.rs`), and the proof that following the cursors visits every
    revision of the first page's snapshot exactly once, whatever is saved and published meanwhile. */
module StorePaging {
  import opened Wrappers
  import Utf8
  import opened Store
  import opened StoreRuns
  import opened StoreSafety
  import DiffHunks
  import opened RevisionPages

  type byte = Utf8.byte

  const DEFAULT_PAGE_SIZE: nat := 50
  const MAX_PAGE_SIZE: nat := 100
  const MAX_CURSOR_BYTES: nat := 128

  type Hasher = seq<byte> -> string

  // ---- the query ------------------------------------------------------------

  predicate Selected(db: Db, project: string, below: Option<int>, id: string) {
    && id in db.revisions && db.revisions[id].project == project
    && (below.Some? ==> db.revisions[id].no < below.value)
  }

  /** The rows of `WHERE project_id = ? AND revision_no < ? ORDER BY revision_no DESC LIMIT ?`: matching rows,
      in descending order, and a matching row is left out only when the limit is used up by rows that come
      before it. */
  ghost predicate QueryRows(db: Db, project: string, below: Option<int>, limit: nat, rows: seq<string>) {
    && |rows| <= limit
    && (forall i | 0 <= i < |rows| :: Selected(db, project, below, rows[i]))
    && (forall i, j | 0 <= i < j < |rows| :: rows[i] != rows[j] && db.revisions[rows[i]].no >= db.revisions[rows[j]].no)
    && (forall id | Selected(db, project, below, id) && id !in rows ::
          |rows| == limit && forall i | 0 <= i < |rows| :: db.revisions[rows[i]].no >= db.revisions[id].no)
  }

  function ItemOf(db: Db, id: string, hash: Hasher): Item
    requires id in db.revisions && db.revisions[id].project in db.projects
  {
    var (r, p) := (db.revisions[id], db.projects[db.revisions[id].project]);
    Item(DiffHunks.Summary(id, r.no, r.parent, |r.source|, hash(r.source)), p.current == Some(id), p.served == Some(id))
  }

  function Items(db: Db, ids: seq<string>, hash: Hasher): (r: seq<Item>)
    requires forall i | 0 <= i < |ids| :: ids[i] in db.revisions && db.revisions[ids[i]].project in db.projects
    ensures |r| == |ids|
  {
    if ids == [] then [] else [ItemOf(db, ids[0], hash)] + Items(db, ids[1..], hash)
  }

  /** One row more than the page holds is fetched to see whether there is another page. */
  function PageOf(db: Db, rows: seq<string>, limit: nat, hash: Hasher): Page
    requires 1 <= limit
    requires forall i | 0 <= i < |rows| :: rows[i] in db.revisions && db.revisions[rows[i]].project in db.projects
  {
    if |rows| > limit then Page(Items(db, rows[..limit], hash), Some(rows[limit - 1]))
      else Page(Items(db, rows, hash), None)
  }

  function PageSize(limit: Option<nat>): nat {
    if limit.Some? then limit.value else DEFAULT_PAGE_SIZE
  }

  function Below(db: Db, cursor: Option<string>): Option<int>
    requires cursor.Some? ==> cursor.value in db.revisions
  {
    if cursor.None? then None else Some(db.revisions[cursor.value].no)
  }

  /** What listing the revisions may answer. */
  ghost predicate ListAnswer(db: Db, project: string, limit: Option<nat>, cursor: Option<string>, hash: Hasher,
      r: Result<Page, Error>) {
    if !(1 <= PageSize(limit) <= MAX_PAGE_SIZE) then r == Err(InvalidRequest)
    else if project !in db.projects then r == Err(ProjectNotFound)
    else if cursor.Some? && (cursor.value == [] || |Utf8.Encode(cursor.value)| > MAX_CURSOR_BYTES) then
      r == Err(InvalidCursor)
    else if cursor.Some? && !OwnRevision(db, project, cursor) then r == Err(InvalidCursor)
    else
      exists rows ::
        && QueryRows(db, project, Below(db, cursor), PageSize(limit) + 1, rows)
        && r == Ok(PageOf(db, rows, PageSize(limit), hash))
  }

  // ---- the query follows the parents ----------------------------------------

  /** A revision and its ancestors, newest first. */
  ghost function Chain(db: Db, id: Option<string>): (ids: seq<string>)
    requires Linear(db) && (id.Some? ==> id.value in db.revisions)
    ensures |ids| == if id.None? then 0 else db.revisions[id.value].no
    decreases if id.None? then 0 else db.revisions[id.value].no
  {
    if id.None? then []
    else
      assert ChainOk(db, id.value);
      [id.value] + Chain(db, db.revisions[id.value].parent)
  }

  lemma {:induction false} ChainNumbers(db: Db, id: string, i: nat)
    requires Linear(db) && id in db.revisions && i < db.revisions[id].no
    ensures Numbered(db, db.revisions[id].project, db.revisions[id].no - i, Chain(db, Some(id))[i])
    ensures Chain(db, Some(id))[i..] == Chain(db, Some(Chain(db, Some(id))[i]))
    decreases db.revisions[id].no
  {
    hide Linear, NumbersUnique;
    ChainAt(db, id);
    if i > 0 {
      var parent := db.revisions[id].parent.value;
      ChainNumbers(db, parent, i - 1);
      assert Chain(db, Some(id))[i..] == Chain(db, Some(parent))[i - 1..];
    }
  }

  lemma ChainAt(db: Db, id: string)
    requires Linear(db) && id in db.revisions
    ensures ChainOk(db, id) && BelowCurrent(db, id)
  {
  }

  /** Where a page starts: at the draft, or right below the cursor. */
  function PageStart(db: Db, project: string, cursor: Option<string>): Option<string>
    requires project in db.projects && (cursor.Some? ==> cursor.value in db.revisions)
  {
    if cursor.None? then db.projects[project].current else db.revisions[cursor.value].parent
  }

  ghost predicate CursorOk(db: Db, project: string, cursor: Option<string>) {
    project in db.projects && (cursor.Some? ==> OwnRevision(db, project, cursor))
  }

  ghost function PageChain(db: Db, project: string, cursor: Option<string>): seq<string>
    requires Linear(db) && CursorOk(db, project, cursor)
  {
    ServedOf(db, project);
    assert cursor.Some? ==> ChainOk(db, cursor.value);
    Chain(db, PageStart(db, project, cursor))
  }

  ghost function Take(s: seq<string>, n: nat): seq<string> {
    if |s| <= n then s else s[..n]
  }

  lemma StartOk(db: Db, project: string, cursor: Option<string>)
    requires Linear(db) && CursorOk(db, project, cursor)
    ensures PointersOk(db, project)
    ensures cursor.Some? ==> cursor.value in db.revisions && ChainOk(db, cursor.value)
  {
    ServedOf(db, project);
  }

  /** The chain below a cursor holds every row below it, one of each number. */
  lemma ChainIsSelection(db: Db, project: string, cursor: Option<string>)
    requires Linear(db) && CursorOk(db, project, cursor)
    ensures var chain := PageChain(db, project, cursor);
            && (forall i | 0 <= i < |chain| :: Numbered(db, project, |chain| - i, chain[i]))
            && (forall id :: Selected(db, project, Below(db, cursor), id) <==>
                  id in db.revisions && db.revisions[id].project == project && db.revisions[id].no <= |chain|)
            && (forall id | Selected(db, project, Below(db, cursor), id) :: 1 <= db.revisions[id].no)
  {
    hide NumbersUnique, Linear;
    StartOk(db, project, cursor);
    var start := PageStart(db, project, cursor);
    var chain := PageChain(db, project, cursor);
    forall i | 0 <= i < |chain|
      ensures Numbered(db, project, |chain| - i, chain[i])
    {
      ChainNumbers(db, start.value, i);
    }
    forall id | id in db.revisions && db.revisions[id].project == project
      ensures 1 <= db.revisions[id].no && db.revisions[id].no <= CurrentNo(db, project)
    {
      ChainAt(db, id);
    }
  }

  lemma SameNumber(db: Db, project: string, no: int, a: string, b: string)
    requires NumbersUnique(db.revisions) && Numbered(db, project, no, a) && Numbered(db, project, no, b)
    ensures a == b
  {
  }

  /** A selected row stands in the chain at the place its number says. */
  lemma InChain(db: Db, project: string, cursor: Option<string>, id: string)
    requires Linear(db) && CursorOk(db, project, cursor) && Selected(db, project, Below(db, cursor), id)
    ensures var chain := PageChain(db, project, cursor);
            var no := db.revisions[id].no;
            1 <= no <= |chain| && chain[|chain| - no] == id
  {
    var chain := PageChain(db, project, cursor);
    ChainIsSelection(db, project, cursor);
    var no := db.revisions[id].no;
    var at := |chain| - no;
    SameNumber(db, project, no, id, chain[at]);
  }

  /** The chain lists exactly the selected rows, numbered down to 1. */
  ghost predicate Ranked(db: Db, project: string, below: Option<int>, chain: seq<string>) {
    && (forall i | 0 <= i < |chain| ::
          Selected(db, project, below, chain[i]) && db.revisions[chain[i]].no == |chain| - i)
    && (forall id | Selected(db, project, below, id) ::
          1 <= db.revisions[id].no <= |chain| && chain[|chain| - db.revisions[id].no] == id)
  }

  lemma PageChainRanked(db: Db, project: string, cursor: Option<string>)
    requires Linear(db) && CursorOk(db, project, cursor)
    ensures Ranked(db, project, Below(db, cursor), PageChain(db, project, cursor))
  {
    hide Linear, PageChain, Selected, Below;
    var chain, below := PageChain(db, project, cursor), Below(db, cursor);
    ChainIsSelection(db, project, cursor);
    forall i | 0 <= i < |chain|
      ensures Selected(db, project, below, chain[i]) && db.revisions[chain[i]].no == |chain| - i
    {
      assert Numbered(db, project, |chain| - i, chain[i]);
    }
    forall id | Selected(db, project, below, id)
      ensures id in db.revisions && 1 <= db.revisions[id].no <= |chain| && chain[|chain| - db.revisions[id].no] == id
    {
      InChain(db, project, cursor, id);
    }
  }

  /** The first rows of the chain are a possible answer of the query. */
  lemma ChainAnswers(db: Db, project: string, below: Option<int>, chain: seq<string>, limit: nat)
    requires Ranked(db, project, below, chain)
    ensures QueryRows(db, project, below, limit, Take(chain, limit))
  {
    hide Selected;
    var rows := Take(chain, limit);
    forall i | 0 <= i < |rows|
      ensures rows[i] == chain[i] && rows[i] in db.revisions && db.revisions[rows[i]].no == |chain| - i
    {
      RowKnown(db, project, below, chain[i]);
    }
    forall id | Selected(db, project, below, id) && id !in rows
      ensures id in db.revisions && |rows| == limit
              && forall i | 0 <= i < |rows| :: db.revisions[rows[i]].no >= db.revisions[id].no
    {
      RowKnown(db, project, below, id);
      var at := |chain| - db.revisions[id].no;
      assert chain[at] == id;
      assert at >= |rows|;
    }
  }

  lemma RowKnown(db: Db, project: string, below: Option<int>, id: string)
    requires Selected(db, project, below, id)
    ensures id in db.revisions
  {
  }

  /** And it is the only one: the query follows the parents. */
  lemma {:induction false} QueryIsChain(db: Db, project: string, below: Option<int>, chain: seq<string>, limit: nat,
      rows: seq<string>, n: nat)
    requires Ranked(db, project, below, chain) && QueryRows(db, project, below, limit, rows) && n <= |rows|
    ensures n <= |chain| && forall i | 0 <= i < n :: rows[i] == chain[i]
  {
    hide Ranked, QueryRows;
    if n > 0 {
      QueryIsChain(db, project, below, chain, limit, rows, n - 1);
      NextRow(db, project, below, chain, limit, rows, n - 1);
    }
  }

  lemma NextRow(db: Db, project: string, below: Option<int>, chain: seq<string>, limit: nat, rows: seq<string>, k: nat)
    requires Ranked(db, project, below, chain) && QueryRows(db, project, below, limit, rows)
    requires k < |rows| && k <= |chain| && forall i | 0 <= i < k :: rows[i] == chain[i]
    ensures k < |chain| && rows[k] == chain[k]
  {
    hide Ranked, QueryRows, Selected;
    RowSelected(db, project, below, limit, rows, k);
    ChainPlace(db, project, below, chain, rows[k]);
    var at := |chain| - db.revisions[rows[k]].no;
    if at < k {
      RowsDistinct(db, project, below, limit, rows, at, k);
      assert false;
    }
    if at > k {
      NotSkipped(db, project, below, chain, limit, rows, k);
    }
  }

  lemma RowSelected(db: Db, project: string, below: Option<int>, limit: nat, rows: seq<string>, k: nat)
    requires QueryRows(db, project, below, limit, rows) && k < |rows|
    ensures rows[k] in db.revisions && Selected(db, project, below, rows[k])
  {
  }

  lemma RowsDistinct(db: Db, project: string, below: Option<int>, limit: nat, rows: seq<string>, i: nat, j: nat)
    requires QueryRows(db, project, below, limit, rows) && i < j < |rows|
    ensures rows[i] != rows[j]
  {
  }

  lemma ChainPlace(db: Db, project: string, below: Option<int>, chain: seq<string>, id: string)
    requires Ranked(db, project, below, chain) && Selected(db, project, below, id)
    ensures id in db.revisions && 1 <= db.revisions[id].no <= |chain| && chain[|chain| - db.revisions[id].no] == id
  {
  }

  /** A row of the chain cannot be passed over for a later one. */
  lemma NotSkipped(db: Db, project: string, below: Option<int>, chain: seq<string>, limit: nat, rows: seq<string>,
      k: nat)
    requires Ranked(db, project, below, chain) && QueryRows(db, project, below, limit, rows)
    requires k < |rows| && k < |chain| && forall i | 0 <= i < k :: rows[i] == chain[i]
    ensures rows[k] in db.revisions && db.revisions[rows[k]].no >= |chain| - k
  {
    hide Selected, QueryRows;
    var id := chain[k];
    forall i | 0 <= i <= k
      ensures Selected(db, project, below, chain[i]) && chain[i] in db.revisions
              && db.revisions[chain[i]].no == |chain| - i
    {
      ChainEntry(db, project, below, chain, i);
    }
    if id in rows {
      var j :| 0 <= j < |rows| && rows[j] == id;
      assert j >= k;
      RowsDescend(db, project, below, limit, rows, k, j);
    } else {
      LeftOut(db, project, below, limit, rows, k, id);
    }
  }

  lemma ChainEntry(db: Db, project: string, below: Option<int>, chain: seq<string>, i: nat)
    requires Ranked(db, project, below, chain) && i < |chain|
    ensures Selected(db, project, below, chain[i]) && chain[i] in db.revisions
            && db.revisions[chain[i]].no == |chain| - i
  {
  }

  lemma RowsDescend(db: Db, project: string, below: Option<int>, limit: nat, rows: seq<string>, i: nat, j: nat)
    requires QueryRows(db, project, below, limit, rows) && i <= j < |rows|
    ensures rows[i] in db.revisions && rows[j] in db.revisions && db.revisions[rows[i]].no >= db.revisions[rows[j]].no
  {
  }

  lemma LeftOut(db: Db, project: string, below: Option<int>, limit: nat, rows: seq<string>, k: nat, id: string)
    requires QueryRows(db, project, below, limit, rows) && k < |rows| && Selected(db, project, below, id) && id !in rows
    ensures rows[k] in db.revisions && id in db.revisions && db.revisions[rows[k]].no >= db.revisions[id].no
  {
  }

  lemma RowsAreTake(db: Db, project: string, below: Option<int>, chain: seq<string>, limit: nat, rows: seq<string>)
    requires Ranked(db, project, below, chain)
    ensures QueryRows(db, project, below, limit, rows) <==> rows == Take(chain, limit)
  {
    ChainAnswers(db, project, below, chain, limit);
    if QueryRows(db, project, below, limit, rows) {
      QueryIsChain(db, project, below, chain, limit, rows, |rows|);
      if |rows| < |chain| && |rows| < limit {
        NextIn(db, project, below, chain, limit, rows);
      }
    }
  }

  lemma NextIn(db: Db, project: string, below: Option<int>, chain: seq<string>, limit: nat, rows: seq<string>)
    requires Ranked(db, project, below, chain) && QueryRows(db, project, below, limit, rows)
    requires |rows| < |chain| && forall i | 0 <= i < |rows| :: rows[i] == chain[i]
    ensures |rows| == limit
  {
    hide Selected;
    var id := chain[|rows|];
    RowKnown(db, project, below, id);
    forall i | 0 <= i < |rows|
      ensures rows[i] != id
    {
      RowKnown(db, project, below, chain[i]);
    }
  }

  // ---- one page -------------------------------------------------------------

  lemma {:induction false} ItemIds(db: Db, ids: seq<string>, hash: Hasher)
    requires forall i | 0 <= i < |ids| :: ids[i] in db.revisions && db.revisions[ids[i]].project in db.projects
    ensures Ids(Items(db, ids, hash)) == ids
    ensures forall i | 0 <= i < |ids| :: Items(db, ids, hash)[i] == ItemOf(db, ids[i], hash)
  {
    if ids != [] {
      ItemIds(db, ids[1..], hash);
      var items := Items(db, ids, hash);
      assert items[1..] == Items(db, ids[1..], hash);
      assert forall i | 1 <= i < |ids| :: ids[i] == ids[1..][i - 1] && items[i] == items[1..][i - 1];
    }
  }

  lemma AnswerRows(db: Db, project: string, limit: Option<nat>, cursor: Option<string>, hash: Hasher, page: Page)
      returns (rows: seq<string>)
    requires ListAnswer(db, project, limit, cursor, hash, Ok(page))
    ensures CursorOk(db, project, cursor) && 1 <= PageSize(limit) <= MAX_PAGE_SIZE
    ensures QueryRows(db, project, Below(db, cursor), PageSize(limit) + 1, rows)
    ensures forall i | 0 <= i < |rows| :: rows[i] in db.revisions && db.revisions[rows[i]].project in db.projects
    ensures page == PageOf(db, rows, PageSize(limit), hash)
  {
    rows :| && QueryRows(db, project, Below(db, cursor), PageSize(limit) + 1, rows)
            && page == PageOf(db, rows, PageSize(limit), hash);
  }

  /** The page of size `n` at the start of the rows `chain`. */
  ghost predicate Shows(db: Db, chain: seq<string>, n: nat, hash: Hasher, page: Page) {
    && 1 <= n && Ids(page.items) == Take(chain, n)
    && page.nextCursor == (if |chain| > n then Some(chain[n - 1]) else None)
    && |page.items| <= |chain|
    && forall i | 0 <= i < |page.items| ::
         chain[i] in db.revisions && db.revisions[chain[i]].project in db.projects
           && page.items[i] == ItemOf(db, chain[i], hash)
  }

  /** A page holds the next revisions of the chain, and its cursor is the last of them unless the chain ends. */
  lemma PageIsChain(db: Db, project: string, limit: Option<nat>, cursor: Option<string>, hash: Hasher, page: Page)
    requires Linear(db) && ListAnswer(db, project, limit, cursor, hash, Ok(page))
    ensures CursorOk(db, project, cursor) && 1 <= PageSize(limit) <= MAX_PAGE_SIZE
    ensures Shows(db, PageChain(db, project, cursor), PageSize(limit), hash, page)
  {
    hide Linear, PageChain, QueryRows, ItemOf, Ids, Ranked, ListAnswer, Below;
    var n := PageSize(limit);
    var rows := AnswerRows(db, project, limit, cursor, hash, page);
    var chain := PageChain(db, project, cursor);
    PageChainRanked(db, project, cursor);
    RowsAreTake(db, project, Below(db, cursor), chain, n + 1, rows);
    RankedLive(db, project, Below(db, cursor), chain);
    PageShows(db, chain, n, hash, rows);
  }

  lemma PageShows(db: Db, chain: seq<string>, n: nat, hash: Hasher, rows: seq<string>)
    requires 1 <= n && rows == Take(chain, n + 1)
    requires forall i | 0 <= i < |chain| :: chain[i] in db.revisions && db.revisions[chain[i]].project in db.projects
    ensures forall i | 0 <= i < |rows| :: rows[i] in db.revisions && db.revisions[rows[i]].project in db.projects
    ensures Shows(db, chain, n, hash, PageOf(db, rows, n, hash))
  {
    hide ItemOf, Ids;
    var shown := Take(chain, n);
    assert |rows| > n ==> rows[..n] == shown;
    assert |rows| <= n ==> rows == shown;
    ItemIds(db, shown, hash);
  }

  lemma RankedLive(db: Db, project: string, below: Option<int>, chain: seq<string>)
    requires Ranked(db, project, below, chain) && project in db.projects
    ensures forall i | 0 <= i < |chain| :: chain[i] in db.revisions && db.revisions[chain[i]].project in db.projects
  {
  }

  /** Why no page is answered. */
  lemma ListRefused(db: Db, project: string, limit: Option<nat>, cursor: Option<string>, hash: Hasher,
      r: Result<Page, Error>)
    requires ListAnswer(db, project, limit, cursor, hash, r)
    ensures var size := if limit.Some? then limit.value else 50;
            if size == 0 || size > 100 then r == Err(InvalidRequest)
            else if project !in db.projects then r == Err(ProjectNotFound)
            else if cursor.Some?
                 && (cursor.value == [] || |Utf8.Encode(cursor.value)| > 128 || cursor.value !in db.revisions
                     || db.revisions[cursor.value].project != project)
            then r == Err(InvalidCursor)
            else r.Ok?
  {
    hide QueryRows, PageOf, Utf8.Encode;
  }

  /** The item tells of the revision row and of the project's two pointers. */
  predicate Tells(db: Db, project: string, item: Item, hash: Hasher)
    requires project in db.projects
  {
    var (s, p) := (item.summary, db.projects[project]);
    && s.id in db.revisions
    && var row := db.revisions[s.id];
    && row.project == project && s.revisionNo == row.no && s.parentId == row.parent
    && s.byteLength == |row.source| && s.contentHash == hash(row.source)
    && (item.isCurrent <==> p.current == Some(s.id)) && (item.isServed <==> p.served == Some(s.id))
  }

  /** THE PAGE IN NUMBERS. A page counts down from the draft, or from below its cursor, for as many revisions as fit it
      and exist; it goes on exactly when it does not reach the first; and every item tells of its revision. */
  lemma PageTells(db: Db, project: string, limit: Option<nat>, cursor: Option<string>, hash: Hasher, page: Page)
    requires Linear(db) && ListAnswer(db, project, limit, cursor, hash, Ok(page))
    ensures CursorOk(db, project, cursor) && OwnRevision(db, project, db.projects[project].current)
    ensures var size := if limit.Some? then limit.value else 50;
            var top := if cursor.Some? then db.revisions[cursor.value].no - 1 else CurrentNo(db, project);
            && |page.items| == (if top <= size then top else size)
            && (forall i | 0 <= i < |page.items| ::
                  Tells(db, project, page.items[i], hash) && page.items[i].summary.revisionNo == top - i)
            && (page.nextCursor.Some? <==> top > size)
            && (page.nextCursor.Some? ==> size >= 1 && page.nextCursor.value == page.items[size - 1].summary.id)
  {
    hide Linear, ItemOf, ListAnswer, Ids, PageChain;
    PageIsChain(db, project, limit, cursor, hash, page);
    ServedOf(db, project);
    var chain := PageChain(db, project, cursor);
    IdsAre(page.items);
    ChainFrom(db, project, cursor);
    forall i | 0 <= i < |page.items|
      ensures Tells(db, project, page.items[i], hash)
      ensures page.items[i].summary.revisionNo == db.revisions[chain[i]].no && page.items[i].summary.id == chain[i]
    {
      ItemTells(db, project, chain[i], hash);
    }
  }

  lemma ItemTells(db: Db, project: string, id: string, hash: Hasher)
    requires project in db.projects && id in db.revisions && db.revisions[id].project == project
    requires db.revisions[id].no >= 0
    ensures Tells(db, project, ItemOf(db, id, hash), hash) && ItemOf(db, id, hash).summary.id == id
  {
  }

  /** The chain of a page in numbers. */
  lemma ChainFrom(db: Db, project: string, cursor: Option<string>)
    requires Linear(db) && CursorOk(db, project, cursor) && OwnRevision(db, project, db.projects[project].current)
    ensures var (chain, top) := (PageChain(db, project, cursor),
                                 if cursor.Some? then db.revisions[cursor.value].no - 1 else CurrentNo(db, project));
            && |chain| == top
            && forall i | 0 <= i < |chain| ::
                 chain[i] in db.revisions && db.revisions[chain[i]].project == project
                   && db.revisions[chain[i]].no == top - i
  {
    hide Linear, Chain;
    ServedOf(db, project);
    if cursor.Some? {
      ChainAt(db, cursor.value);
    }
    var start := PageStart(db, project, cursor);
    if start.Some? {
      forall i: nat | i < |Chain(db, start)|
        ensures Numbered(db, project, db.revisions[start.value].no - i, Chain(db, start)[i])
      {
        ChainNumbers(db, start.value, i);
      }
    }
  }

  // ---- all pages ------------------------------------------------------------

  /** Between two pages anything may happen that leaves the project alive: its revisions all stay. */
  ghost predicate Keeps(db: Db, db': Db, project: string) {
    && Linear(db) && Linear(db') && project in db.projects && project in db'.projects
    && forall r | r in db.revisions && db.revisions[r].project == project ::
         r in db'.revisions && db'.revisions[r] == db.revisions[r]
  }

  lemma RowsKept(worlds: seq<World>, actions: seq<Action>, accepts: Validator, i: nat, j: nat, project: string)
    requires Run(worlds, actions, accepts) && worlds[0] == Initial && i <= j < |worlds|
    requires project in worlds[i].db.projects && project in worlds[j].db.projects
    ensures Keeps(worlds[i].db, worlds[j].db, project)
    decreases j
  {
    hide Linear, Validated, TokensOk, TicketsOk, Effect, Drawn, Tickets;
    RunKeepsInv(worlds, actions, accepts, j);
    if i < j {
      RunKeepsInv(worlds, actions, accepts, j - 1);
      StillUsed(worlds, actions, accepts, i, j - 1, project);
      EffectEvolves(worlds[j - 1].db, actions[j - 1]);
      RowsKept(worlds, actions, accepts, i, j - 1, project);
    }
  }

  lemma {:induction false} StillUsed(worlds: seq<World>, actions: seq<Action>, accepts: Validator, i: nat, j: nat,
      project: string)
    requires Run(worlds, actions, accepts) && worlds[0] == Initial && i <= j < |worlds|
             && project in worlds[i].db.projects
    ensures project in worlds[j].used
    decreases j
  {
    hide Linear, Validated, TokensOk, TicketsOk, Effect, Drawn, Tickets;
    if i == j {
      RunKeepsInv(worlds, actions, accepts, i);
    } else {
      StillUsed(worlds, actions, accepts, i, j - 1, project);
    }
  }

  datatype Visit = Visit(db: Db, limit: Option<nat>, page: Page)

  /** A client follows the cursors from a given one to the end, each page read from a later store. */
  ghost predicate Traversal(visits: seq<Visit>, project: string, cursor: Option<string>, hash: Hasher) {
    && visits != []
    && var v := visits[0];
    && Linear(v.db) && ListAnswer(v.db, project, v.limit, cursor, hash, Ok(v.page))
    && if v.page.nextCursor.None? then |visits| == 1
       else
         && |visits| > 1 && Keeps(v.db, visits[1].db, project)
         && Traversal(visits[1..], project, v.page.nextCursor, hash)
  }

  function Collected(visits: seq<Visit>): seq<string> {
    if visits == [] then [] else Ids(visits[0].page.items) + Collected(visits[1..])
  }

  /** A revision's ancestors are the same in any later store. */
  lemma {:induction false} ChainKept(db: Db, db': Db, project: string, id: Option<string>)
    requires Keeps(db, db', project) && (id.Some? ==> OwnRevision(db, project, id))
    ensures id.Some? ==> OwnRevision(db', project, id)
    ensures Chain(db', id) == Chain(db, id)
    decreases if id.None? then 0 else db.revisions[id.value].no
  {
    if id.Some? {
      ChainAt(db, id.value);
      ChainAt(db', id.value);
      hide Linear, BelowCurrent;
      if db.revisions[id.value].no > 1 {
        ChainKept(db, db', project, db.revisions[id.value].parent);
      }
    }
  }

  lemma RestOfChain(db: Db, project: string, cursor: Option<string>, n: nat)
    requires Linear(db) && CursorOk(db, project, cursor) && 1 <= n < |PageChain(db, project, cursor)|
    ensures var chain := PageChain(db, project, cursor);
            && OwnRevision(db, project, Some(chain[n - 1]))
            && OwnRevision(db, project, db.revisions[chain[n - 1]].parent)
            && PageChain(db, project, Some(chain[n - 1])) == chain[n..]
  {
    hide Linear;
    var chain := PageChain(db, project, cursor);
    StartOk(db, project, cursor);
    var start := PageStart(db, project, cursor).value;
    ChainNumbers(db, start, n - 1);
    ChainAt(db, chain[n - 1]);
    assert chain[n - 1..][1..] == chain[n..];
  }

  /** Following cursors collects the rest of the chain as it was at the first of these pages. */
  lemma {:induction false} TraversalIsChain(visits: seq<Visit>, project: string, cursor: Option<string>, hash: Hasher)
    requires Traversal(visits, project, cursor, hash)
    ensures CursorOk(visits[0].db, project, cursor)
    ensures Collected(visits) == PageChain(visits[0].db, project, cursor)
    ensures |visits| <= |Collected(visits)| || |visits| == 1
    decreases |visits|
  {
    hide Linear, ListAnswer, Ids, PageChain, Keeps;
    var v := visits[0];
    PageIsChain(v.db, project, v.limit, cursor, hash, v.page);
    var chain, n := PageChain(v.db, project, cursor), PageSize(v.limit);
    if v.page.nextCursor.None? {
      assert Collected(visits[1..]) == [];
      assert Collected(visits) == Ids(v.page.items) + [];
    } else {
      var next := visits[1].db;
      TraversalIsChain(visits[1..], project, v.page.nextCursor, hash);
      RestOfChain(v.db, project, cursor, n);
      SamePageChain(v.db, next, project, chain[n - 1]);
      assert Collected(visits[1..]) == chain[n..];
      assert chain == chain[..n] + chain[n..];
    }
  }

  lemma SamePageChain(db: Db, db': Db, project: string, cursor: string)
    requires Keeps(db, db', project) && OwnRevision(db, project, Some(cursor))
             && OwnRevision(db, project, db.revisions[cursor].parent)
    ensures CursorOk(db', project, Some(cursor))
            && PageChain(db', project, Some(cursor)) == PageChain(db, project, Some(cursor))
  {
    ChainKept(db, db', project, db.revisions[cursor].parent);
  }

  /** PAGING IS EXACT. From the first page to a null cursor, with any transactions in between, the pages list
      every revision that existed at the first page exactly once, numbered from the newest down to 1. */
  lemma PagingIsExact(visits: seq<Visit>, project: string, hash: Hasher)
    requires Traversal(visits, project, None, hash)
    ensures var db, ids := visits[0].db, Collected(visits);
            && project in db.projects && PointersOk(db, project)
            && |ids| == CurrentNo(db, project)
            && (forall i | 0 <= i < |ids| :: Numbered(db, project, |ids| - i, ids[i]))
            && (forall id | id in db.revisions && db.revisions[id].project == project :: id in ids)
            && |visits| <= |ids|
  {
    hide ListAnswer, Traversal, Linear, PageChain;
    TraversalIsChain(visits, project, None, hash);
    FirstLinear(visits, project, None, hash);
    var db, ids := visits[0].db, Collected(visits);
    FirstProject(db, project);
    ServedOf(db, project);
    ChainIsSelection(db, project, None);
    forall id | id in db.revisions && db.revisions[id].project == project
      ensures id in ids
    {
      InChain(db, project, None, id);
    }
    WholeChain(db, project);
  }

  lemma FirstLinear(visits: seq<Visit>, project: string, cursor: Option<string>, hash: Hasher)
    requires Traversal(visits, project, cursor, hash)
    ensures visits != [] && Linear(visits[0].db)
  {
  }

  lemma FirstProject(db: Db, project: string)
    requires CursorOk(db, project, None)
    ensures project in db.projects
  {
  }

  /** Without a cursor the chain is as long as the draft's number. */
  lemma WholeChain(db: Db, project: string)
    requires Linear(db) && CursorOk(db, project, None)
    ensures PointersOk(db, project) && |PageChain(db, project, None)| == CurrentNo(db, project) >= 1
  {
    ServedOf(db, project);
    ChainAt(db, db.projects[project].current.value);
  }
}
