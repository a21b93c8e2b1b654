/** Paging over one run of the store: pages that a client reads at later and later points of it, and the timeline
    component that decides by itself what to ask for next. */
module PagingRuns {
  import opened Wrappers
  import opened Store
  import opened StoreRuns
  import opened StoreSafety
  import opened StorePaging
  import opened RevisionPages
  import opened RevisionHistory
  import opened HistoryPaging

  /** Each page was read from the run's store at its index; nothing else is asked of the run. */
  ghost predicate InRun(worlds: seq<World>, at: seq<nat>, visits: seq<Visit>) {
    && |at| == |visits|
    && (forall i | 0 <= i < |at| :: at[i] < |worlds| && visits[i].db == worlds[at[i]].db)
    && forall i, j | 0 <= i < j < |at| :: at[i] <= at[j]
  }

  /** A client follows the cursors to the end. */
  ghost predicate Followed(visits: seq<Visit>, project: string, cursor: Option<string>, hash: Hasher) {
    && visits != []
    && var v := visits[0];
    && ListAnswer(v.db, project, v.limit, cursor, hash, Ok(v.page))
    && if v.page.nextCursor.None? then |visits| == 1
       else |visits| > 1 && Followed(visits[1..], project, v.page.nextCursor, hash)
  }

  /** Exactly the revisions of the project, newest first. */
  ghost predicate WholeHistory(db: Db, project: string, ids: seq<string>) {
    && project in db.projects && PointersOk(db, project)
    && |ids| == CurrentNo(db, project)
    && (forall i | 0 <= i < |ids| :: Numbered(db, project, |ids| - i, ids[i]))
    && forall id | id in db.revisions && db.revisions[id].project == project :: id in ids
  }

  lemma PageMeansLive(db: Db, project: string, limit: Option<nat>, cursor: Option<string>, hash: Hasher, page: Page)
    requires ListAnswer(db, project, limit, cursor, hash, Ok(page))
    ensures CursorOk(db, project, cursor)
  {
  }

  lemma RestInRun(worlds: seq<World>, at: seq<nat>, visits: seq<Visit>)
    requires InRun(worlds, at, visits) && visits != []
    ensures InRun(worlds, at[1..], visits[1..])
  {
  }

  /** Two pages of one run, read one after the other. */
  lemma KeptInRun(worlds: seq<World>, actions: seq<Action>, accepts: Validator, at: seq<nat>, visits: seq<Visit>,
      project: string)
    requires Run(worlds, actions, accepts) && worlds[0] == Initial && InRun(worlds, at, visits) && |visits| > 1
    requires project in visits[0].db.projects && project in visits[1].db.projects
    ensures Keeps(visits[0].db, visits[1].db, project)
  {
    hide Run, Keeps;
    RowsKept(worlds, actions, accepts, at[0], at[1], project);
  }

  lemma LinearInRun(worlds: seq<World>, actions: seq<Action>, accepts: Validator, i: nat)
    requires Run(worlds, actions, accepts) && worlds[0] == Initial && i < |worlds|
    ensures Linear(worlds[i].db)
  {
    hide Run, Linear;
    RunKeepsInv(worlds, actions, accepts, i);
  }

  lemma {:induction false} FollowedIsTraversal(worlds: seq<World>, actions: seq<Action>, accepts: Validator,
      at: seq<nat>, visits: seq<Visit>, project: string, cursor: Option<string>, hash: Hasher)
    requires Run(worlds, actions, accepts) && worlds[0] == Initial
    requires InRun(worlds, at, visits) && Followed(visits, project, cursor, hash)
    ensures Traversal(visits, project, cursor, hash)
    decreases |visits|
  {
    hide Run, Linear, ListAnswer, Keeps;
    var v := visits[0];
    LinearInRun(worlds, actions, accepts, at[0]);
    if v.page.nextCursor.Some? {
      RestInRun(worlds, at, visits);
      assert visits[1..][0] == visits[1];
      PageMeansLive(v.db, project, v.limit, cursor, hash, v.page);
      PageMeansLive(visits[1].db, project, visits[1].limit, v.page.nextCursor, hash, visits[1].page);
      KeptInRun(worlds, actions, accepts, at, visits, project);
      FollowedIsTraversal(worlds, actions, accepts, at[1..], visits[1..], project, v.page.nextCursor, hash);
    }
  }

  /** PAGING IN A RUN. Whatever transactions anyone runs between the pages, following the cursors from the first
      page to the last lists exactly the history of the store at the first one. */
  lemma PagingInRun(worlds: seq<World>, actions: seq<Action>, accepts: Validator, at: seq<nat>, visits: seq<Visit>,
      project: string, hash: Hasher)
    requires Run(worlds, actions, accepts) && worlds[0] == Initial
    requires InRun(worlds, at, visits) && Followed(visits, project, None, hash)
    ensures WholeHistory(worlds[at[0]].db, project, Collected(visits)) && |visits| <= |Collected(visits)|
  {
    hide Run, Linear, ListAnswer, Keeps, Traversal, Collected;
    FollowedIsTraversal(worlds, actions, accepts, at, visits, project, None, hash);
    PagingIsExact(visits, project, hash);
  }

  // ---- the component asks ---------------------------------------------------

  function CursorOf(request: Request): Option<string> {
    match request
    case First(_) => None
    case More(_, cursor) => Some(cursor)
  }

  /** The component under load: the store answers its request, and it asks for more until it no longer does. */
  ghost predicate Driven(c: Component, request: Request, visits: seq<Visit>, project: string, hash: Hasher,
      end: Component)
    decreases |visits|
  {
    && visits != []
    && var v := visits[0];
    && ListAnswer(v.db, project, v.limit, CursorOf(request), hash, Ok(v.page))
    && var (c', next) := LoadMore(Receive(c, request, Paged(v.page)));
    if next.None? then |visits| == 1 && end == c'
    else |visits| > 1 && Driven(c', next.value, visits[1..], project, hash, end)
  }

  /** The pagination that the answer to a request is applied to. */
  function Base(c: Component, request: Request): State {
    if request.First? then Fresh else c.pagination
  }

  /** The component waits for the page that starts with `chain`. */
  ghost predicate Awaiting(c: Component, request: Request, chain: seq<string>) {
    && c.serial == request.serial
    && (request.First? ==> !c.loadingMore)
    && Base(c, request).requested <= Base(c, request).seen
    && Ahead(Base(c, request), CursorOf(request), chain)
  }

  /** The page is adopted, and more is asked for exactly when there is more. */
  lemma PageArrives(c: Component, request: Request, db: Db, chain: seq<string>, n: nat, hash: Hasher, page: Page)
    requires Shows(db, chain, n, hash, page) && Awaiting(c, request, chain)
    ensures var (c', next) := LoadMore(Receive(c, request, Paged(page)));
            && Ids(c'.pagination.revisions) == Ids(Base(c, request).revisions) + Take(chain, n)
            && if |chain| <= n then next.None? && c'.pagination.nextCursor.None? && !c'.loadingMore
               else
                 && next.Some? && next.value.More? && CursorOf(next.value) == page.nextCursor
                 && Awaiting(c', next.value, chain[n..])
  {
    hide Apply, Ids, ItemOf, Ahead;
    var base, cursor := Base(c, request), CursorOf(request);
    ApplyShown(base, cursor, db, chain, n, hash, page);
    var state := Apply(base, cursor, page).state;
    ReceiveIs(c, request, page);
    if |chain| > n {
      AppliedSets(base, cursor, chain, n, page);
      SameAhead(state, state.(requested := state.requested + {chain[n - 1]}), page.nextCursor, chain[n..]);
    }
  }

  lemma ReceiveIs(c: Component, request: Request, page: Page)
    requires c.serial == request.serial && (request.First? ==> !c.loadingMore)
    requires Apply(Base(c, request), CursorOf(request), page).Accepted?
    ensures Receive(c, request, Paged(page))
            == Component(c.serial, Apply(Base(c, request), CursorOf(request), page).state, false)
  {
    hide Apply;
  }

  /** The new cursor has not been asked for. */
  lemma AppliedSets(base: State, cursor: Option<string>, chain: seq<string>, n: nat, page: Page)
    requires 1 <= n < |chain| && page.nextCursor == Some(chain[n - 1]) && Ahead(base, cursor, chain)
             && base.requested <= base.seen
    requires Apply(base, cursor, page).Accepted?
    ensures var state := Apply(base, cursor, page).state;
            chain[n - 1] !in state.requested && chain[n - 1] in state.seen && state.requested <= state.seen
  {
    hide Ids, Additions, Distinct;
  }

  lemma SameAhead(state: State, state': State, cursor: Option<string>, chain: seq<string>)
    requires Ahead(state, cursor, chain) && state'.seen == state.seen && state'.revisions == state.revisions
    ensures Ahead(state', cursor, chain)
  {
  }

  lemma {:induction false} DrivenFollows(worlds: seq<World>, actions: seq<Action>, accepts: Validator, at: seq<nat>,
      visits: seq<Visit>, c: Component, request: Request, project: string, hash: Hasher, end: Component)
    requires Run(worlds, actions, accepts) && worlds[0] == Initial && InRun(worlds, at, visits)
    requires Driven(c, request, visits, project, hash, end)
    requires Linear(visits[0].db) && CursorOk(visits[0].db, project, CursorOf(request))
    requires Awaiting(c, request, PageChain(visits[0].db, project, CursorOf(request)))
    ensures Traversal(visits, project, CursorOf(request), hash)
    ensures end.pagination.nextCursor.None? && !end.loadingMore
    ensures Ids(end.pagination.revisions)
            == Ids(Base(c, request).revisions) + PageChain(visits[0].db, project, CursorOf(request))
    decreases |visits|
  {
    hide Run, Linear, ListAnswer, Ids, PageChain, Keeps, ItemOf, Awaiting, Receive, LoadMore, CursorOk, Base;
    var v, cursor := visits[0], CursorOf(request);
    PageIsChain(v.db, project, v.limit, cursor, hash, v.page);
    var chain, n := PageChain(v.db, project, cursor), PageSize(v.limit);
    PageArrives(c, request, v.db, chain, n, hash, v.page);
    var (c', next) := LoadMore(Receive(c, request, Paged(v.page)));
    if next.Some? {
      assert visits[1..][0] == visits[1];
      NextVisit(worlds, actions, accepts, at, visits, project, cursor, CursorOf(next.value), hash);
      ShownRest(visits, project, cursor, hash);
      RestInRun(worlds, at, visits);
      MoreBase(c', next.value);
      DrivenFollows(worlds, actions, accepts, at[1..], visits[1..], c', next.value, project, hash, end);
      assert Ids(Base(c, request).revisions) + chain == Ids(Base(c, request).revisions) + chain[..n] + chain[n..];
    }
  }

  lemma MoreBase(c: Component, request: Request)
    requires request.More?
    ensures Base(c, request) == c.pagination
  {
  }

  lemma NextVisit(worlds: seq<World>, actions: seq<Action>, accepts: Validator, at: seq<nat>, visits: seq<Visit>,
      project: string, cursor: Option<string>, next: Option<string>, hash: Hasher)
    requires Run(worlds, actions, accepts) && worlds[0] == Initial && InRun(worlds, at, visits) && |visits| > 1
    requires ListAnswer(visits[0].db, project, visits[0].limit, cursor, hash, Ok(visits[0].page))
    requires ListAnswer(visits[1].db, project, visits[1].limit, next, hash, Ok(visits[1].page))
    ensures Keeps(visits[0].db, visits[1].db, project) && Linear(visits[1].db) && CursorOk(visits[1].db, project, next)
  {
    hide Run, Linear, ListAnswer, Keeps, CursorOk;
    PageMeansLive(visits[0].db, project, visits[0].limit, cursor, hash, visits[0].page);
    PageMeansLive(visits[1].db, project, visits[1].limit, next, hash, visits[1].page);
    Projects(visits[0].db, project, cursor);
    Projects(visits[1].db, project, next);
    KeptInRun(worlds, actions, accepts, at, visits, project);
    LinearInRun(worlds, actions, accepts, at[1]);
  }

  lemma Projects(db: Db, project: string, cursor: Option<string>)
    requires CursorOk(db, project, cursor)
    ensures project in db.projects
  {
  }

  /** The next page starts with what the first one left, whatever happened in between. */
  lemma ShownRest(visits: seq<Visit>, project: string, cursor: Option<string>, hash: Hasher)
    requires |visits| > 1 && Linear(visits[0].db) && CursorOk(visits[0].db, project, cursor)
    requires Shows(visits[0].db, PageChain(visits[0].db, project, cursor), PageSize(visits[0].limit), hash,
                   visits[0].page)
    requires visits[0].page.nextCursor.Some? && Keeps(visits[0].db, visits[1].db, project)
    ensures CursorOk(visits[1].db, project, visits[0].page.nextCursor) && Linear(visits[1].db)
    ensures var chain := PageChain(visits[0].db, project, cursor);
            PageSize(visits[0].limit) < |chain|
            && PageChain(visits[1].db, project, visits[0].page.nextCursor) == chain[PageSize(visits[0].limit)..]
  {
    hide Linear, PageChain, Ids, ItemOf;
    var v := visits[0];
    var chain, n := PageChain(v.db, project, cursor), PageSize(v.limit);
    RestOfChain(v.db, project, cursor, n);
    SamePageChain(v.db, visits[1].db, project, chain[n - 1]);
  }

  /** THE TIMELINE SHOWS THE HISTORY. From any state, a reload and as many further pages as the component itself
      asks for leave it showing exactly the history of the store at the first page, with nothing more to load. */
  lemma ComponentShowsHistory(worlds: seq<World>, actions: seq<Action>, accepts: Validator, at: seq<nat>,
      visits: seq<Visit>, before: Component, project: string, hash: Hasher, end: Component)
    requires Run(worlds, actions, accepts) && worlds[0] == Initial && InRun(worlds, at, visits)
    requires var (c, first) := Reload(before); Driven(c, first, visits, project, hash, end)
    ensures at != [] && WholeHistory(worlds[at[0]].db, project, Ids(end.pagination.revisions))
    ensures Ids(end.pagination.revisions) == Collected(visits)
    ensures end.pagination.nextCursor.None? && !end.loadingMore
  {
    hide Run, Linear, ListAnswer, Ids, PageChain, Keeps, ItemOf, Awaiting, Receive, LoadMore, CursorOk, Traversal,
      Collected;
    var (c, first) := Reload(before);
    var v := visits[0];
    PageMeansLive(v.db, project, v.limit, None, hash, v.page);
    LinearInRun(worlds, actions, accepts, at[0]);
    FirstAwaits(before, v.db, project);
    DrivenFollows(worlds, actions, accepts, at, visits, c, first, project, hash, end);
    TraversalIsChain(visits, project, None, hash);
    PagingIsExact(visits, project, hash);
    NoIds();
    assert [] + PageChain(v.db, project, None) == PageChain(v.db, project, None);
  }

  lemma FirstAwaits(before: Component, db: Db, project: string)
    requires Linear(db) && CursorOk(db, project, None)
    ensures var (c, first) := Reload(before); Awaiting(c, first, PageChain(db, project, None))
  {
    hide Linear, PageChain, CursorOk, Ids;
    PageChainDistinct(db, project, None);
    NoIds();
  }
}
