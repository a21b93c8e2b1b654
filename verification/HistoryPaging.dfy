/** The two ends of paging together: every page the service answers passes the browser's checks, a cursor it
    hands out stays usable, and the timeline that follows the cursors never reports a repeated one. */
module HistoryPaging {
  import opened Wrappers
  import Utf8
  import opened Store
  import opened StoreRuns
  import opened StorePaging
  import opened RevisionPages
  import opened RevisionHistory
  import DiffClient

  // ---- the browser accepts every page ---------------------------------------

  /** Ids are printable ASCII of at most 128 characters, as UUIDs are, and sizes and numbers fit a
      JavaScript safe integer. */
  ghost predicate Fits(db: Db, hash: Hasher) {
    && (forall id | id in db.revisions ::
          && DiffClient.IsRevisionId(id) && (forall i | 0 <= i < |id| :: (id[i] as int) < 0x80)
          && DiffClient.IsSafe(|db.revisions[id].source|) && db.revisions[id].no <= DiffClient.MAX_SAFE_INTEGER)
    && forall b: seq<byte> :: DiffClient.IsHash(hash(b))
  }

  lemma ItemAccepted(db: Db, id: string, hash: Hasher)
    requires Linear(db) && Fits(db, hash) && id in db.revisions && db.revisions[id].project in db.projects
    ensures DiffClient.SummaryAccepted(ItemOf(db, id, hash).summary)
  {
    hide DiffClient.IsRevisionId, DiffClient.IsHash;
    assert ChainOk(db, id);
  }

  lemma PageChainDistinct(db: Db, project: string, cursor: Option<string>)
    requires Linear(db) && CursorOk(db, project, cursor)
    ensures var chain := PageChain(db, project, cursor);
            && Distinct(chain) && (cursor.Some? ==> cursor.value !in chain)
            && forall i | 0 <= i < |chain| :: chain[i] in db.revisions && db.revisions[chain[i]].project == project
  {
    hide Linear, PageChain, Ranked;
    var chain := PageChain(db, project, cursor);
    PageChainRanked(db, project, cursor);
    forall i | 0 <= i < |chain|
      ensures Selected(db, project, Below(db, cursor), chain[i]) && db.revisions[chain[i]].no == |chain| - i
    {
      ChainEntry(db, project, Below(db, cursor), chain, i);
    }
  }

  lemma OneMark(db: Db, chain: seq<string>, n: nat, hash: Hasher, page: Page, project: string)
    requires Shows(db, chain, n, hash, page) && Distinct(chain)
    requires forall i | 0 <= i < |chain| :: chain[i] in db.revisions && db.revisions[chain[i]].project == project
    ensures AtMostOne(Marks(page.items, true)) && AtMostOne(Marks(page.items, false))
  {
    hide Ids, Take, Marks;
    var items := page.items;
    assert forall i | 0 <= i < |items| :: items[i] == ItemOf(db, chain[i], hash) && chain[i] in db.revisions;
  }

  /** Every page the service answers is accepted by the browser. */
  lemma BrowserAcceptsPage(db: Db, project: string, limit: Option<nat>, cursor: Option<string>, hash: Hasher,
      page: Page)
    requires Linear(db) && Fits(db, hash) && ListAnswer(db, project, limit, cursor, hash, Ok(page))
    ensures PageAccepted(page, cursor)
  {
    hide Linear, PageChain, ListAnswer, Fits, ItemOf, Ids, DiffClient.SummaryAccepted, AtMostOne, Marks,
      DiffClient.IsRevisionId;
    PageIsChain(db, project, limit, cursor, hash, page);
    var chain, n := PageChain(db, project, cursor), PageSize(limit);
    PageChainDistinct(db, project, cursor);
    OneMark(db, chain, n, hash, page, project);
    IdsAre(page.items);
    forall i | 0 <= i < |page.items|
      ensures DiffClient.SummaryAccepted(page.items[i].summary)
    {
      ItemAccepted(db, chain[i], hash);
    }
    if page.nextCursor.Some? {
      assert Ids(page.items)[n - 1] == chain[n - 1];
      FitsId(db, hash, chain[n - 1]);
    }
  }

  lemma FitsId(db: Db, hash: Hasher, id: string)
    requires Fits(db, hash) && id in db.revisions
    ensures 0 < |id| <= DiffClient.MAX_ID_LENGTH && forall i | 0 <= i < |id| :: (id[i] as int) < 0x80
  {
  }

  // ---- a cursor stays usable ------------------------------------------------

  lemma {:induction false} AsciiLength(s: string)
    requires forall i | 0 <= i < |s| :: (s[i] as int) < 0x80
    ensures |Utf8.Encode(s)| == |s|
  {
    if s != [] {
      AsciiLength(s[1..]);
    }
  }

  /** Whatever happens to a live project in between, the next request with the cursor of a page is answered
      with a page. */
  lemma CursorStaysUsable(db: Db, db': Db, project: string, limit: Option<nat>, cursor: Option<string>, hash: Hasher,
      page: Page, limit': Option<nat>, r: Result<Page, Error>)
    requires Linear(db) && Fits(db, hash) && ListAnswer(db, project, limit, cursor, hash, Ok(page))
             && page.nextCursor.Some?
    requires Keeps(db, db', project) && 1 <= PageSize(limit') <= MAX_PAGE_SIZE
    ensures ListAnswer(db', project, limit', page.nextCursor, hash, r) ==> r.Ok?
    ensures exists next :: ListAnswer(db', project, limit', page.nextCursor, hash, Ok(next))
  {
    hide Linear, QueryRows, PageOf, Fits, Ranked, Utf8.Encode, ListAnswer;
    var next := page.nextCursor;
    NextIsOwn(db, project, limit, cursor, hash, page);
    FitsId(db, hash, next.value);
    AsciiLength(next.value);
    var some := SomePage(db', project, limit', next, hash);
    AnswersWithPage(db', project, limit', next, hash, r);
  }

  lemma SomePage(db: Db, project: string, limit: Option<nat>, cursor: Option<string>, hash: Hasher) returns (page: Page)
    requires Linear(db) && project in db.projects && 1 <= PageSize(limit) <= MAX_PAGE_SIZE
             && OwnRevision(db, project, cursor)
    requires 0 < |cursor.value| && |Utf8.Encode(cursor.value)| <= MAX_CURSOR_BYTES
    ensures ListAnswer(db, project, limit, cursor, hash, Ok(page))
  {
    hide Linear, QueryRows, PageOf, Ranked, Utf8.Encode;
    var n := PageSize(limit);
    var rows := Take(PageChain(db, project, cursor), n + 1);
    PageChainRanked(db, project, cursor);
    RowsAreTake(db, project, Below(db, cursor), PageChain(db, project, cursor), n + 1, rows);
    RowsLive(db, project, Below(db, cursor), n + 1, rows);
    page := PageOf(db, rows, n, hash);
  }

  lemma AnswersWithPage(db: Db, project: string, limit: Option<nat>, cursor: Option<string>, hash: Hasher,
      r: Result<Page, Error>)
    requires project in db.projects && 1 <= PageSize(limit) <= MAX_PAGE_SIZE && OwnRevision(db, project, cursor)
    requires 0 < |cursor.value| && |Utf8.Encode(cursor.value)| <= MAX_CURSOR_BYTES
    ensures ListAnswer(db, project, limit, cursor, hash, r) ==> r.Ok?
  {
  }

  lemma NextIsOwn(db: Db, project: string, limit: Option<nat>, cursor: Option<string>, hash: Hasher, page: Page)
    requires Linear(db) && ListAnswer(db, project, limit, cursor, hash, Ok(page)) && page.nextCursor.Some?
    ensures OwnRevision(db, project, page.nextCursor)
  {
    hide Linear, PageChain, ListAnswer;
    PageIsChain(db, project, limit, cursor, hash, page);
    PageChainDistinct(db, project, cursor);
  }

  lemma RowsLive(db: Db, project: string, below: Option<int>, limit: nat, rows: seq<string>)
    requires QueryRows(db, project, below, limit, rows) && project in db.projects
    ensures forall i | 0 <= i < |rows| :: rows[i] in db.revisions && db.revisions[rows[i]].project in db.projects
  {
  }

  // ---- the timeline that follows the cursors --------------------------------

  /** The pages applied one after the other, each to the request its predecessor's cursor made. */
  function Follow(state: State, cursor: Option<string>, visits: seq<Visit>): Option<State>
    decreases |visits|
  {
    if visits == [] then Some(state)
    else
      match Apply(state, cursor, visits[0].page)
      case Refused(_, _) => None
      case Accepted(next) => Follow(next, visits[0].page.nextCursor, visits[1..])
  }

  lemma {:induction false} AllAdded(current: seq<Item>, incoming: seq<Item>)
    requires Distinct(Ids(incoming)) && forall i | 0 <= i < |incoming| :: !HasId(current, incoming[i].summary.id)
    ensures Additions(current, incoming) == incoming
    decreases |incoming|
  {
    hide Ids;
    if incoming != [] {
      var front, last := incoming[..|incoming| - 1], incoming[|incoming| - 1];
      IdsAre(incoming);
      IdsAre(front);
      assert Ids(front) == Ids(incoming)[..|incoming| - 1];
      AllAdded(current, front);
      assert front + [last] == incoming;
    }
  }

  lemma {:induction false} IdsConcat(a: seq<Item>, b: seq<Item>)
    ensures Ids(a + b) == Ids(a) + Ids(b)
  {
    if a == [] {
      assert a + b == b;
    } else {
      assert (a + b)[1..] == a[1..] + b;
      IdsConcat(a[1..], b);
    }
  }

  lemma HasIdIs(items: seq<Item>, id: string)
    ensures HasId(items, id) <==> id in Ids(items)
  {
    hide Ids;
    IdsAre(items);
    if id in Ids(items) {
      var i :| 0 <= i < |items| && Ids(items)[i] == id;
    }
    if HasId(items, id) {
      var i :| 0 <= i < |items| && items[i].summary.id == id;
      assert Ids(items)[i] == id;
    }
  }

  /** Nothing of the rest of the chain has been seen. */
  ghost predicate Ahead(state: State, cursor: Option<string>, chain: seq<string>) {
    && (cursor.Some? ==> cursor.value in state.seen)
    && Distinct(chain)
    && forall i | 0 <= i < |chain| :: chain[i] !in state.seen && chain[i] !in Ids(state.revisions)
  }

  lemma ApplyShown(state: State, cursor: Option<string>, db: Db, chain: seq<string>, n: nat, hash: Hasher, page: Page)
    requires Shows(db, chain, n, hash, page) && Ahead(state, cursor, chain)
    ensures var t := Apply(state, cursor, page);
            && t.Accepted? && t.state.nextCursor == page.nextCursor
            && Ids(t.state.revisions) == Ids(state.revisions) + Take(chain, n)
            && (|chain| > n ==> Ahead(t.state, page.nextCursor, chain[n..]))
  {
    hide Ids, ItemOf, Additions;
    var items := page.items;
    IdsAre(items);
    forall i | 0 <= i < |items|
      ensures !HasId(state.revisions, items[i].summary.id)
    {
      assert Ids(items)[i] == chain[i];
      HasIdIs(state.revisions, chain[i]);
    }
    AllAdded(state.revisions, items);
    IdsConcat(state.revisions, items);
    if |chain| > n {
      var rest := chain[n..];
      assert forall i | 0 <= i < |rest| :: rest[i] == chain[n + i];
      assert forall i | 0 <= i < |rest| :: rest[i] !in chain[..n];
    }
  }

  lemma {:induction false} FollowsTraversal(visits: seq<Visit>, project: string, cursor: Option<string>, hash: Hasher,
      state: State)
    requires Traversal(visits, project, cursor, hash) && CursorOk(visits[0].db, project, cursor)
    requires Ahead(state, cursor, PageChain(visits[0].db, project, cursor))
    ensures var end := Follow(state, cursor, visits);
            && end.Some? && end.value.nextCursor.None?
            && Ids(end.value.revisions) == Ids(state.revisions) + PageChain(visits[0].db, project, cursor)
    decreases |visits|
  {
    hide Linear, ListAnswer, Ids, PageChain, Keeps, Apply, Ahead, ItemOf;
    var v := visits[0];
    PageIsChain(v.db, project, v.limit, cursor, hash, v.page);
    var chain, n := PageChain(v.db, project, cursor), PageSize(v.limit);
    ApplyShown(state, cursor, v.db, chain, n, hash, v.page);
    if v.page.nextCursor.Some? {
      var next := visits[1].db;
      RestOfChain(v.db, project, cursor, n);
      SamePageChain(v.db, next, project, chain[n - 1]);
      var state' := Apply(state, cursor, v.page).state;
      assert visits[1..][0] == visits[1];
      FollowsTraversal(visits[1..], project, v.page.nextCursor, hash, state');
      assert chain == chain[..n] + chain[n..];
      assert Ids(state.revisions) + chain == Ids(state.revisions) + chain[..n] + chain[n..];
    }
  }

  /** No run of pages makes the timeline report a repeated or cyclic cursor; at the end it shows exactly the
      history of the first page's snapshot. */
  lemma TimelineFollows(visits: seq<Visit>, project: string, hash: Hasher)
    requires Traversal(visits, project, None, hash)
    ensures var end := Follow(Fresh, None, visits);
            end.Some? && end.value.nextCursor.None? && Ids(end.value.revisions) == Collected(visits)
  {
    hide Linear, ListAnswer, Ids, PageChain, Keeps, Apply, ItemOf;
    TraversalIsChain(visits, project, None, hash);
    PageChainDistinct(visits[0].db, project, None);
    NoIds();
    FollowsTraversal(visits, project, None, hash, Fresh);
    assert [] + PageChain(visits[0].db, project, None) == PageChain(visits[0].db, project, None);
  }

  lemma NoIds()
    ensures Ids(Fresh.revisions) == []
  {
  }
}
