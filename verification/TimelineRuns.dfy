/** The timeline component and one run of the store, interleaved freely (`RevisionHistory.tsx` over `storage.rs`):
    requests fail and are tried again, cycles are restarted, answers arrive late or never. Whatever happens, what is
    shown is the front of the history that the store had when it answered the cycle's first request. */
module TimelineRuns {
  import opened Wrappers
  import opened Store
  import opened StoreRuns
  import opened StorePaging
  import opened RevisionPages
  import opened RevisionHistory
  import opened HistoryPaging
  import opened PagingRuns
  import Component = RevisionHistoryRuns

  /** An answer on its way back; `at` is the point of the run at which the store gave it. */
  datatype Reply = Reply(request: Request, response: Response, at: nat)

  /** `now` is the point that the run has reached, `first` the one at which the first page of this cycle was read. */
  datatype Session = Session(now: nat, client: Component.World, replies: set<Reply>, first: Option<nat>)

  datatype Step =
    | Tick
    | Ask(event: Component.Event)
    | Serve(reply: Reply)
    | Deliver(reply: Reply)

  const Opened: Session := Session(0, Component.Start, {}, None)

  /** A page as the browser lets it through. */
  function Seen(page: Page, cursor: Option<string>): Response {
    if PageAccepted(page, cursor) then Paged(page) else Invalid
  }

  /** A failure of any kind, or a page that the store answers with. */
  ghost predicate Honest(db: Db, project: string, limit: Option<nat>, hash: Hasher, request: Request,
      response: Response) {
    || response == Failed
    || exists page ::
         && ListAnswer(db, project, limit, CursorOf(request), hash, Ok(page))
         && response == Seen(page, CursorOf(request))
  }

  ghost predicate Enabled(s: Session, step: Step, stores: seq<World>, project: string, limit: Option<nat>,
      hash: Hasher) {
    match step
    case Tick => s.now + 1 < |stores|
    case Ask(event) => !event.Arriving?
    case Serve(reply) =>
      && s.now < |stores| && reply.at == s.now && reply.request in s.client.inflight
      && (forall r | r in s.replies :: r.request != reply.request)
      && Honest(stores[s.now].db, project, limit, hash, reply.request, reply.response)
    case Deliver(reply) => reply in s.replies
  }

  function Next(s: Session, step: Step): Session {
    match step
    case Tick => s.(now := s.now + 1)
    case Ask(event) =>
      s.(client := Component.Next(s.client, event), first := if event.Reloading? then None else s.first)
    case Serve(reply) => s.(replies := s.replies + {reply})
    case Deliver(reply) =>
      var accepted := Component.AcceptsPage(s.client.c, reply.request, reply.response);
      s.(client := Component.Next(s.client, Component.Arriving(reply.request, reply.response)),
         replies := s.replies - {reply},
         first := if accepted && reply.request.First? then Some(reply.at) else s.first)
  }

  ghost predicate SessionRun(sessions: seq<Session>, steps: seq<Step>, stores: seq<World>, project: string,
      limit: Option<nat>, hash: Hasher) {
    && |sessions| == |steps| + 1 && sessions[0] == Opened
    && forall i | 0 <= i < |steps| ::
         Enabled(sessions[i], steps[i], stores, project, limit, hash) && sessions[i + 1] == Next(sessions[i], steps[i])
  }

  /** One run of the store, in which ids and sizes are such that the browser can hold them. */
  ghost predicate StoreRun(stores: seq<World>, actions: seq<Action>, accepts: Validator, hash: Hasher) {
    && StoreRuns.Run(stores, actions, accepts) && stores[0] == Initial
    && forall i | 0 <= i < |stores| :: Fits(stores[i].db, hash)
  }

  // ---- the invariant --------------------------------------------------------

  /** The list is the front of the chain, and the next cursor leads on to the rest of it and is free to be asked for. */
  ghost predicate Progress(chain: seq<string>, c: RevisionHistory.Component) {
    var (state, n) := (c.pagination, |c.pagination.revisions|);
    && 1 <= n <= |chain| && Ids(state.revisions) == chain[..n]
    && state.nextCursor == (if n < |chain| then Some(chain[n - 1]) else None)
    && (forall x | x in state.seen :: x in chain[..n]) && state.requested <= state.seen
    && (state.nextCursor.Some? ==>
          state.nextCursor.value in state.seen && (state.nextCursor.value in state.requested ==> c.loadingMore))
  }

  /** The history of the project as the store has it. */
  ghost predicate HasHistory(db: Db, project: string, chain: seq<string>) {
    Linear(db) && CursorOk(db, project, None) && chain == PageChain(db, project, None)
  }

  ghost predicate Shows(db: Db, project: string, c: RevisionHistory.Component) {
    exists chain :: HasHistory(db, project, chain) && Progress(chain, c)
  }

  ghost predicate RepliesOk(s: Session, stores: seq<World>, project: string, limit: Option<nat>, hash: Hasher) {
    && (forall r | r in s.replies ::
          && r.request in s.client.inflight && r.at <= s.now < |stores|
          && Honest(stores[r.at].db, project, limit, hash, r.request, r.response))
    && forall q, r | q in s.replies && r in s.replies && q.request == r.request :: q == r
  }

  ghost predicate ListOk(s: Session, stores: seq<World>, project: string) {
    match s.first
    case None => s.client.c.pagination == Fresh && !s.client.c.loadingMore
    case Some(f) =>
      && f <= s.now < |stores| && Shows(stores[f].db, project, s.client.c)
      && forall r | r in s.replies && r.request.serial == s.client.c.serial && r.request.More? :: f <= r.at
  }

  ghost predicate Inv(s: Session, stores: seq<World>, project: string, limit: Option<nat>, hash: Hasher) {
    && s.now < |stores| && Component.Inv(s.client)
    && RepliesOk(s, stores, project, limit, hash) && ListOk(s, stores, project)
  }

  // ---- steps that deliver nothing -------------------------------------------

  lemma TickKeeps(s: Session, stores: seq<World>, project: string, limit: Option<nat>, hash: Hasher)
    requires Inv(s, stores, project, limit, hash) && s.now + 1 < |stores|
    ensures Inv(Next(s, Tick), stores, project, limit, hash)
  {
    hide Component.Inv, Shows, Honest;
  }

  lemma ServeKeeps(s: Session, reply: Reply, stores: seq<World>, project: string, limit: Option<nat>, hash: Hasher)
    requires Inv(s, stores, project, limit, hash) && Enabled(s, Serve(reply), stores, project, limit, hash)
    ensures Inv(Next(s, Serve(reply)), stores, project, limit, hash)
  {
    hide Component.Inv, Shows, Honest;
  }

  lemma ReloadKeeps(s: Session, stores: seq<World>, project: string, limit: Option<nat>, hash: Hasher)
    requires Inv(s, stores, project, limit, hash)
    ensures Inv(Next(s, Ask(Component.Reloading)), stores, project, limit, hash)
  {
    hide Component.Inv, Shows, Honest, Component.AcceptsPage;
    Component.ReloadKeeps(s.client);
  }

  /** A next cursor can always be asked for: the timeline never gives one up. */
  lemma AsksOn(chain: seq<string>, c: RevisionHistory.Component)
    requires Progress(chain, c)
    ensures var (c', request) := LoadMore(c);
            && Progress(chain, c')
            && if c.pagination.nextCursor.Some? && !c.loadingMore
               then request == Some(More(c.serial + 1, c.pagination.nextCursor.value)) else c' == c && request.None?
  {
    hide Ids;
  }

  /** The serials of requests that were sent before. */
  lemma OlderSerials(s: Session, stores: seq<World>, project: string, limit: Option<nat>, hash: Hasher)
    requires Inv(s, stores, project, limit, hash)
    ensures forall r | r in s.replies :: r.request.serial <= s.client.c.serial
  {
    hide ListOk, Honest;
  }

  lemma LoadMoreKeeps(s: Session, stores: seq<World>, project: string, limit: Option<nat>, hash: Hasher)
    requires Inv(s, stores, project, limit, hash)
    ensures Inv(Next(s, Ask(Component.LoadingMore)), stores, project, limit, hash)
  {
    Component.LoadMoreKeeps(s.client);
    OlderSerials(s, stores, project, limit, hash);
    LoadMoreList(s, stores, project);
    RequestAdded(s.client);
    RepliesStand(s, Component.Next(s.client, Component.LoadingMore), stores, project, limit, hash);
    hide Component.Inv, RepliesOk, ListOk, Component.Next;
  }

  lemma RepliesStand(s: Session, client: Component.World, stores: seq<World>, project: string, limit: Option<nat>,
      hash: Hasher)
    requires RepliesOk(s, stores, project, limit, hash) && s.client.inflight <= client.inflight
    ensures RepliesOk(s.(client := client), stores, project, limit, hash)
  {
    hide Honest;
  }

  lemma LoadMoreList(s: Session, stores: seq<World>, project: string)
    requires ListOk(s, stores, project) && forall r | r in s.replies :: r.request.serial <= s.client.c.serial
    ensures ListOk(s.(client := Component.Next(s.client, Component.LoadingMore)), stores, project)
  {
    RequestAdded(s.client);
    hide Shows, LoadMore, Component.Next;
    if s.first.Some? {
      ShowsOn(stores[s.first.value].db, project, s.client.c);
    }
  }

  lemma RequestAdded(client: Component.World)
    ensures var (c, client') := (LoadMore(client.c).0, Component.Next(client, Component.LoadingMore));
            && client'.c == c && client.inflight <= client'.inflight
            && (c.serial == client.c.serial || c.serial == client.c.serial + 1)
            && (client.c.pagination == Fresh ==> c == client.c)
  {
  }

  lemma ShowsOn(db: Db, project: string, c: RevisionHistory.Component)
    requires Shows(db, project, c)
    ensures Shows(db, project, LoadMore(c).0)
  {
    hide Progress, HasHistory, LoadMore;
    var chain :| HasHistory(db, project, chain) && Progress(chain, c);
    AsksOn(chain, c);
  }

  // ---- steps that deliver an answer -----------------------------------------

  lemma RepliesKept(s: Session, reply: Reply, stores: seq<World>, project: string, limit: Option<nat>, hash: Hasher)
    requires RepliesOk(s, stores, project, limit, hash) && reply in s.replies
    ensures RepliesOk(Next(s, Deliver(reply)), stores, project, limit, hash)
  {
    hide Honest;
  }

  /** An honest answer is a failure or a page of the chain it was asked for. */
  lemma HonestPage(db: Db, project: string, limit: Option<nat>, hash: Hasher, request: Request, response: Response)
    requires Linear(db) && Fits(db, hash) && Honest(db, project, limit, hash, request, response) && response != Failed
    ensures response.Paged? && CursorOk(db, project, CursorOf(request)) && 1 <= PageSize(limit)
    ensures StorePaging.Shows(db, PageChain(db, project, CursorOf(request)), PageSize(limit), hash, response.page)
  {
    hide Linear, Fits, ListAnswer, PageAccepted, PageChain, StorePaging.Shows;
    var page :| ListAnswer(db, project, limit, CursorOf(request), hash, Ok(page))
      && response == Seen(page, CursorOf(request));
    BrowserAcceptsPage(db, project, limit, CursorOf(request), hash, page);
    PageIsChain(db, project, limit, CursorOf(request), hash, page);
  }

  /** The first page of a cycle. */
  lemma FirstPage(db: Db, project: string, n: nat, hash: Hasher, page: Page, c: RevisionHistory.Component,
      request: Request)
    requires Linear(db) && CursorOk(db, project, None) && request.First? && c.serial == request.serial
    requires StorePaging.Shows(db, PageChain(db, project, None), n, hash, page) && !c.loadingMore
    ensures Component.AcceptsPage(c, request, Paged(page)) && Shows(db, project, Receive(c, request, Paged(page)))
  {
    hide Linear, PageChain, Ids, ItemOf, CursorOk, Apply;
    var chain := PageChain(db, project, None);
    PageChainDistinct(db, project, None);
    NoIds();
    NotEmpty(db, project);
    ApplyShown(Fresh, None, db, chain, n, hash, page);
    FirstSets(chain, n, page);
    var state := Apply(Fresh, None, page).state;
    ReceiveIs(c, request, page);
    assert [] + Take(chain, n) == Take(chain, n);
    IdsLength(state.revisions);
    Begun(chain, n, state);
    hide Progress;
    assert HasHistory(db, project, chain) && Progress(chain, Receive(c, request, Paged(page)));
  }

  lemma Begun(chain: seq<string>, n: nat, state: State)
    requires 1 <= n && 1 <= |chain| && Ids(state.revisions) == Take(chain, n) && |state.revisions| == |Take(chain, n)|
    requires state.nextCursor == (if |chain| > n then Some(chain[n - 1]) else None) && state.requested == {}
    requires state.seen == if state.nextCursor.Some? then {state.nextCursor.value} else {}
    ensures forall serial: nat :: Progress(chain, RevisionHistory.Component(serial, state, false))
  {
    hide Ids;
    var k := |state.revisions|;
    assert Take(chain, n) == chain[..k];
    if state.nextCursor.Some? {
      assert chain[..k][n - 1] == chain[n - 1];
    }
  }

  lemma NotEmpty(db: Db, project: string)
    requires Linear(db) && CursorOk(db, project, None)
    ensures |PageChain(db, project, None)| >= 1
  {
    hide Linear, PageChain;
    WholeChain(db, project);
  }

  lemma IdsLength(items: seq<Item>)
    ensures |Ids(items)| == |items|
  {
    hide Ids;
    IdsAre(items);
  }

  lemma FirstSets(chain: seq<string>, n: nat, page: Page)
    requires 1 <= n && page.nextCursor == (if |chain| > n then Some(chain[n - 1]) else None)
    requires Apply(Fresh, None, page).Accepted?
    ensures var state := Apply(Fresh, None, page).state;
            && state.requested == {} && state.nextCursor == page.nextCursor
            && state.seen == if page.nextCursor.Some? then {page.nextCursor.value} else {}
  {
    hide Additions;
  }

  /** A further page: it goes on where the list ends, whatever was saved in between. */
  lemma FurtherPage(then': Db, db: Db, project: string, n: nat, hash: Hasher, page: Page, c: RevisionHistory.Component,
      request: Request)
    requires Keeps(then', db, project) && request.More? && c.serial == request.serial
    requires Shows(then', project, c) && c.pagination.nextCursor == Some(request.cursor)
    requires CursorOk(db, project, Some(request.cursor))
    requires StorePaging.Shows(db, PageChain(db, project, Some(request.cursor)), n, hash, page)
    ensures Shows(then', project, Receive(c, request, Paged(page)))
  {
    hide Linear, PageChain, Ids, ItemOf, CursorOk, Apply, Keeps, StorePaging.Shows, Progress;
    var chain :| HasHistory(then', project, chain) && Progress(chain, c);
    var m := |c.pagination.revisions|;
    ProgressCursor(chain, c);
    RestOfChain(then', project, None, m);
    SamePageChain(then', db, project, chain[m - 1]);
    PageChainDistinct(then', project, None);
    GoesOn(chain, c, db, n, hash, page, request);
    assert HasHistory(then', project, chain) && Progress(chain, Receive(c, request, Paged(page)));
  }

  lemma ProgressCursor(chain: seq<string>, c: RevisionHistory.Component)
    requires Progress(chain, c) && c.pagination.nextCursor.Some?
    ensures var m := |c.pagination.revisions|; 1 <= m < |chain| && c.pagination.nextCursor == Some(chain[m - 1])
  {
    hide Ids;
  }

  lemma GoesOn(chain: seq<string>, c: RevisionHistory.Component, db: Db, n: nat, hash: Hasher, page: Page,
      request: Request)
    requires Progress(chain, c) && Distinct(chain) && request.More? && c.serial == request.serial
    requires |c.pagination.revisions| < |chain| && c.pagination.nextCursor == Some(request.cursor)
    requires StorePaging.Shows(db, chain[|c.pagination.revisions|..], n, hash, page)
    ensures Progress(chain, Receive(c, request, Paged(page)))
  {
    hide Ids, ItemOf, Apply;
    var state, m := c.pagination, |c.pagination.revisions|;
    var rest := chain[m..];
    RestAhead(chain, m, state);
    ApplyShown(state, Some(request.cursor), db, rest, n, hash, page);
    var state' := Apply(state, Some(request.cursor), page).state;
    FurtherSets(state, request.cursor, page);
    IdsLength(state'.revisions);
    assert Take(rest, n) == rest[..|Take(rest, n)|];
    assert chain[..m] + rest[..|Take(rest, n)|] == chain[..m + |Take(rest, n)|];
    Further(chain, m, |Take(rest, n)|, n, state, state', request.cursor);
  }

  lemma RestAhead(chain: seq<string>, m: nat, state: State)
    requires Distinct(chain) && 1 <= m < |chain| && state.nextCursor == Some(chain[m - 1])
    requires Ids(state.revisions) == chain[..m] && (forall x | x in state.seen :: x in chain[..m])
    requires state.nextCursor.value in state.seen
    ensures Ahead(state, state.nextCursor, chain[m..])
  {
    hide Ids;
    var rest := chain[m..];
    forall i | 0 <= i < |rest|
      ensures rest[i] !in chain[..m]
    {
      assert rest[i] == chain[m + i];
    }
  }

  lemma FurtherSets(state: State, cursor: string, page: Page)
    requires Apply(state, Some(cursor), page).Accepted?
    ensures var state' := Apply(state, Some(cursor), page).state;
            && state'.requested == state.requested + {cursor} && state'.nextCursor == page.nextCursor
            && state'.seen == state.seen + if page.nextCursor.Some? then {page.nextCursor.value} else {}
  {
    hide Additions;
  }

  lemma Further(chain: seq<string>, m: nat, k: nat, n: nat, state: State, state': State, cursor: string)
    requires Distinct(chain) && 1 <= m < |chain| && cursor == chain[m - 1] && 1 <= n
    requires k == (if |chain| - m <= n then |chain| - m else n)
    requires (forall x | x in state.seen :: x in chain[..m]) && state.requested <= state.seen && cursor in state.seen
    requires state'.requested == state.requested + {cursor} && |state'.revisions| == m + k
    requires state'.nextCursor == if |chain| - m > n then Some(chain[m..][n - 1]) else None
    requires state'.seen == state.seen + if state'.nextCursor.Some? then {state'.nextCursor.value} else {}
    requires Ids(state'.revisions) == chain[..m + k]
    ensures forall serial: nat :: Progress(chain, RevisionHistory.Component(serial, state', false))
  {
    hide Ids;
    forall x | x in state'.seen
      ensures x in chain[..m + k]
    {
      if x in state.seen {
        var i :| 0 <= i < m && chain[..m][i] == x;
        assert chain[..m + k][i] == x;
      } else {
        assert chain[..m + k][m + k - 1] == x;
      }
    }
    if state'.nextCursor.Some? {
      var next := state'.nextCursor.value;
      assert next == chain[m + n - 1];
      assert next !in chain[..m];
    }
  }

  /** The cursor that failed can be asked for again. */
  lemma Retried(chain: seq<string>, c: RevisionHistory.Component, request: Request)
    requires Progress(chain, c) && request.More? && c.serial == request.serial
    requires c.pagination.nextCursor == Some(request.cursor)
    ensures Progress(chain, Receive(c, request, Failed))
  {
    hide Ids;
  }

  lemma FirstArrives(s: Session, reply: Reply, stores: seq<World>, actions: seq<Action>, accepts: Validator,
      project: string, limit: Option<nat>, hash: Hasher)
    requires StoreRun(stores, actions, accepts, hash) && Inv(s, stores, project, limit, hash) && reply in s.replies
    requires reply.request.First? && reply.request.serial == s.client.c.serial
    ensures ListOk(Next(s, Deliver(reply)), stores, project)
  {
    hide StoreRuns.Run, Linear, Honest, Shows, Fits, DistinctIds, Apply;
    assert Component.Pending(s.client, reply.request);
    NothingYet(s, stores, project);
    var db := stores[reply.at].db;
    if reply.response != Failed {
      LinearInRun(stores, actions, accepts, reply.at);
      HonestPage(db, project, limit, hash, reply.request, reply.response);
      FirstPage(db, project, PageSize(limit), hash, reply.response.page, s.client.c, reply.request);
      NoOther(s, reply, stores, project, limit, hash);
    }
  }

  lemma NothingYet(s: Session, stores: seq<World>, project: string)
    requires ListOk(s, stores, project) && s.client.c.pagination == Fresh
    ensures s.first.None?
  {
    hide HasHistory, Ids;
  }

  /** No other answer of the same serial is on its way. */
  lemma NoOther(s: Session, reply: Reply, stores: seq<World>, project: string, limit: Option<nat>, hash: Hasher)
    requires Inv(s, stores, project, limit, hash) && reply in s.replies && reply.request.serial == s.client.c.serial
    ensures forall r | r in s.replies && r.request.serial == s.client.c.serial :: r == reply
  {
    hide Honest, ListOk;
  }

  lemma MoreArrives(s: Session, reply: Reply, stores: seq<World>, actions: seq<Action>, accepts: Validator,
      project: string, limit: Option<nat>, hash: Hasher)
    requires StoreRun(stores, actions, accepts, hash) && Inv(s, stores, project, limit, hash) && reply in s.replies
    requires reply.request.More? && reply.request.serial == s.client.c.serial
    ensures ListOk(Next(s, Deliver(reply)), stores, project)
  {
    hide StoreRuns.Run, Linear, Honest, Fits, DistinctIds, Apply, Progress, HasHistory, Receive;
    assert Component.Pending(s.client, reply.request);
    SomethingYet(s, stores, project);
    var c, f := s.client.c, s.first.value;
    NoOther(s, reply, stores, project, limit, hash);
    ReceiveSerial(c, reply.request, reply.response);
    if reply.response == Failed {
      var chain :| HasHistory(stores[f].db, project, chain) && Progress(chain, c);
      Retried(chain, c, reply.request);
    } else {
      var db := stores[reply.at].db;
      LinearInRun(stores, actions, accepts, reply.at);
      HonestPage(db, project, limit, hash, reply.request, reply.response);
      HistoryLives(stores[f].db, project, c);
      Projects(db, project, CursorOf(reply.request));
      RowsKept(stores, actions, accepts, f, reply.at, project);
      FurtherPage(stores[f].db, db, project, PageSize(limit), hash, reply.response.page, c, reply.request);
    }
  }

  lemma ReceiveSerial(c: RevisionHistory.Component, request: Request, response: Response)
    ensures Receive(c, request, response).serial == c.serial
  {
    hide Apply;
  }

  lemma SomethingYet(s: Session, stores: seq<World>, project: string)
    requires ListOk(s, stores, project) && s.client.c.pagination.nextCursor.Some?
    ensures s.first.Some?
  {
    hide Shows;
  }

  lemma HistoryLives(db: Db, project: string, c: RevisionHistory.Component)
    requires Shows(db, project, c)
    ensures project in db.projects
  {
    hide Linear, Progress, PageChain;
  }

  /** An answer to an earlier request changes nothing. */
  lemma LateArrives(s: Session, reply: Reply, stores: seq<World>, project: string)
    requires ListOk(s, stores, project) && reply.request.serial != s.client.c.serial
    ensures ListOk(Next(s, Deliver(reply)), stores, project)
  {
    Unmoved(s, reply);
    hide Shows, Next;
  }

  lemma Unmoved(s: Session, reply: Reply)
    requires reply.request.serial != s.client.c.serial
    ensures var s' := Next(s, Deliver(reply));
            s'.client.c == s.client.c && s'.first == s.first && s'.now == s.now && s'.replies <= s.replies
  {
    hide Apply;
  }

  lemma DeliverKeeps(s: Session, reply: Reply, stores: seq<World>, actions: seq<Action>, accepts: Validator,
      project: string, limit: Option<nat>, hash: Hasher)
    requires StoreRun(stores, actions, accepts, hash) && Inv(s, stores, project, limit, hash) && reply in s.replies
    ensures Inv(Next(s, Deliver(reply)), stores, project, limit, hash)
  {
    RepliesKept(s, reply, stores, project, limit, hash);
    ArrivalKeeps(s, reply, stores, project, limit, hash);
    hide Component.Inv, ListOk, RepliesOk, StoreRun, Next;
    if reply.request.serial != s.client.c.serial {
      LateArrives(s, reply, stores, project);
    } else if reply.request.First? {
      FirstArrives(s, reply, stores, actions, accepts, project, limit, hash);
    } else {
      MoreArrives(s, reply, stores, actions, accepts, project, limit, hash);
    }
  }

  lemma ArrivalKeeps(s: Session, reply: Reply, stores: seq<World>, project: string, limit: Option<nat>, hash: Hasher)
    requires Inv(s, stores, project, limit, hash) && reply in s.replies
    ensures var s' := Next(s, Deliver(reply)); s'.now == s.now && Component.Inv(s'.client)
  {
    hide Component.Inv, ListOk, RepliesOk, Component.Next, Component.AcceptsPage;
    StillInFlight(s, reply, stores, project, limit, hash);
    Component.StepKeeps(s.client, Component.Arriving(reply.request, reply.response));
  }

  lemma StillInFlight(s: Session, reply: Reply, stores: seq<World>, project: string, limit: Option<nat>, hash: Hasher)
    requires RepliesOk(s, stores, project, limit, hash) && reply in s.replies
    ensures reply.request in s.client.inflight
  {
    hide Honest;
  }

  // ---- whole sessions -------------------------------------------------------

  lemma StepKeeps(s: Session, step: Step, stores: seq<World>, actions: seq<Action>, accepts: Validator, project: string,
      limit: Option<nat>, hash: Hasher)
    requires StoreRun(stores, actions, accepts, hash) && Inv(s, stores, project, limit, hash)
    requires Enabled(s, step, stores, project, limit, hash)
    ensures Inv(Next(s, step), stores, project, limit, hash)
  {
    hide Inv, Next, StoreRun, Honest;
    match step
    case Tick => TickKeeps(s, stores, project, limit, hash);
    case Ask(event) =>
      if event.Reloading? {
        ReloadKeeps(s, stores, project, limit, hash);
      } else {
        LoadMoreKeeps(s, stores, project, limit, hash);
      }
    case Serve(reply) => ServeKeeps(s, reply, stores, project, limit, hash);
    case Deliver(reply) => DeliverKeeps(s, reply, stores, actions, accepts, project, limit, hash);
  }

  lemma OpenedInv(stores: seq<World>, project: string, limit: Option<nat>, hash: Hasher)
    requires stores != []
    ensures Inv(Opened, stores, project, limit, hash)
  {
    Component.StartInv();
    hide Component.Inv;
  }

  lemma StartsSomewhere(stores: seq<World>, actions: seq<Action>, accepts: Validator, hash: Hasher)
    requires StoreRun(stores, actions, accepts, hash)
    ensures stores != []
  {
    hide Fits;
  }

  lemma {:induction false} AlwaysInv(sessions: seq<Session>, steps: seq<Step>, stores: seq<World>, actions: seq<Action>,
      accepts: Validator, project: string, limit: Option<nat>, hash: Hasher, i: nat)
    requires StoreRun(stores, actions, accepts, hash) && i < |sessions|
    requires SessionRun(sessions, steps, stores, project, limit, hash)
    ensures Inv(sessions[i], stores, project, limit, hash)
  {
    hide Inv, Next, Enabled, StoreRun;
    StartsSomewhere(stores, actions, accepts, hash);
    if i == 0 {
      OpenedInv(stores, project, limit, hash);
    } else {
      AlwaysInv(sessions, steps, stores, actions, accepts, project, limit, hash, i - 1);
      StepKeeps(sessions[i - 1], steps[i - 1], stores, actions, accepts, project, limit, hash);
    }
  }

  /** ALWAYS THE FRONT OF THE HISTORY. At every point of every session the list is empty or shows exactly the newest
      revisions, without gap or repetition, of the history at the cycle's first page. The next cursor is null only
      when it shows all of them, and otherwise can be asked for as soon as nothing is being loaded. */
  lemma FrontOfHistory(sessions: seq<Session>, steps: seq<Step>, stores: seq<World>, actions: seq<Action>,
      accepts: Validator, project: string, limit: Option<nat>, hash: Hasher, i: nat)
    requires StoreRun(stores, actions, accepts, hash) && i < |sessions|
    requires SessionRun(sessions, steps, stores, project, limit, hash)
    ensures var (c, first) := (sessions[i].client.c, sessions[i].first);
            && (first.None? ==> c.pagination.revisions == [])
            && (first.Some? ==>
                  && first.value < |stores|
                  && exists ids :: WholeHistory(stores[first.value].db, project, ids) && IsFront(c, ids))
  {
    hide Inv, StoreRun, SessionRun;
    AlwaysInv(sessions, steps, stores, actions, accepts, project, limit, hash, i);
    FrontOf(sessions[i], stores, project, limit, hash);
  }

  ghost predicate IsFront(c: RevisionHistory.Component, ids: seq<string>) {
    var n := |c.pagination.revisions|;
    && 1 <= n <= |ids| && Ids(c.pagination.revisions) == ids[..n]
    && (c.pagination.nextCursor.None? <==> n == |ids|)
    && (n < |ids| && !c.loadingMore ==> LoadMore(c).1 == Some(More(c.serial + 1, ids[n - 1])))
  }

  lemma FrontOf(s: Session, stores: seq<World>, project: string, limit: Option<nat>, hash: Hasher)
    requires Inv(s, stores, project, limit, hash)
    ensures s.first.None? ==> s.client.c.pagination.revisions == []
    ensures s.first.Some? ==>
              && s.first.value < |stores|
              && exists ids :: WholeHistory(stores[s.first.value].db, project, ids) && IsFront(s.client.c, ids)
  {
    hide Component.Inv, RepliesOk, HasHistory, Progress, WholeHistory, IsFront;
    if s.first.Some? {
      var db := stores[s.first.value].db;
      var chain :| HasHistory(db, project, chain) && Progress(chain, s.client.c);
      ChainIsHistory(db, project, chain);
      FrontOfChain(chain, s.client.c);
    }
  }

  lemma FrontOfChain(chain: seq<string>, c: RevisionHistory.Component)
    requires Progress(chain, c)
    ensures IsFront(c, chain)
  {
    AsksOn(chain, c);
    hide Ids, LoadMore;
  }

  lemma ChainIsHistory(db: Db, project: string, chain: seq<string>)
    requires HasHistory(db, project, chain)
    ensures WholeHistory(db, project, chain)
  {
    hide Linear, PageChain;
    FirstProject(db, project);
    ServedOf(db, project);
    ChainIsSelection(db, project, None);
    WholeChain(db, project);
    forall id | id in db.revisions && db.revisions[id].project == project
      ensures id in chain
    {
      InChain(db, project, None, id);
    }
  }
}
