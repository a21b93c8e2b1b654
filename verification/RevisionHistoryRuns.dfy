/** The timeline against an arbitrary server (`RevisionHistory.tsx`): whatever arrives, in whatever order and
    however late, ids stay distinct, items are only appended, and loading terminates. */
module RevisionHistoryRuns {
  import opened Wrappers
  import opened RevisionPages
  import opened RevisionHistory

  /** The component, the requests still under way, and how many pages this cycle has accepted. */
  datatype World = World(c: Component, inflight: set<Request>, accepted: nat)

  datatype Event = Reloading | LoadingMore | Arriving(request: Request, response: Response)

  const Start: World := World(Unmounted, {}, 0)

  predicate Enabled(w: World, e: Event) {
    e.Arriving? ==> e.request in w.inflight
  }

  predicate AcceptsPage(c: Component, request: Request, response: Response) {
    && c.serial == request.serial && response.Paged?
    && match request
       case First(_) => Apply(Fresh, None, response.page).Accepted?
       case More(_, cursor) => Apply(c.pagination, Some(cursor), response.page).Accepted?
  }

  function Next(w: World, e: Event): World {
    match e
    case Reloading =>
      var (c, request) := Reload(w.c);
      World(c, w.inflight + {request}, 0)
    case LoadingMore =>
      var (c, request) := LoadMore(w.c);
      World(c, w.inflight + (if request.Some? then {request.value} else {}), w.accepted)
    case Arriving(request, response) =>
      World(Receive(w.c, request, response), w.inflight - {request},
            w.accepted + if AcceptsPage(w.c, request, response) then 1 else 0)
  }

  ghost predicate Run(worlds: seq<World>, events: seq<Event>) {
    && |worlds| == |events| + 1 && worlds[0] == Start
    && forall i | 0 <= i < |events| :: Enabled(worlds[i], events[i]) && worlds[i + 1] == Next(worlds[i], events[i])
  }

  /** What the one request that can still be answered says about the component. */
  predicate Pending(w: World, request: Request) {
    match request
    case First(_) => w.c.pagination == Fresh && !w.c.loadingMore && w.accepted == 0
    case More(_, cursor) =>
      w.c.loadingMore && w.c.pagination.nextCursor == Some(cursor) && cursor in w.c.pagination.requested
  }

  ghost predicate Inv(w: World) {
    && DistinctIds(w.c.pagination.revisions)
    && (forall r | r in w.inflight :: r.serial <= w.c.serial)
    && (forall r, s | r in w.inflight && s in w.inflight && r.serial == s.serial :: r == s)
    && (forall r | r in w.inflight && r.serial == w.c.serial :: Pending(w, r))
    && (w.c.pagination.nextCursor.Some? ==> w.c.pagination.nextCursor.value in w.c.pagination.seen)
    && w.accepted <= |w.c.pagination.seen| + if w.c.pagination.nextCursor.None? then 1 else 0
  }

  lemma StartInv()
    ensures Inv(Start)
  {
  }

  lemma ReloadKeeps(w: World)
    requires Inv(w)
    ensures Inv(Next(w, Reloading))
  {
  }

  lemma LoadMoreKeeps(w: World)
    requires Inv(w)
    ensures Inv(Next(w, LoadingMore))
  {
    hide DistinctIds;
    var (c, request) := LoadMore(w.c);
    if request.Some? {
      MoreRequested(w, c, request.value);
    } else {
      NothingRequested(w, c);
    }
  }

  lemma MoreRequested(w: World, c: Component, request: Request)
    requires Inv(w) && LoadMore(w.c) == (c, Some(request))
    ensures Inv(World(c, w.inflight + {request}, w.accepted))
  {
    hide DistinctIds;
    var w' := World(c, w.inflight + {request}, w.accepted);
    assert request.serial == c.serial == w.c.serial + 1;
    assert forall r | r in w'.inflight && r != request :: r in w.inflight && r.serial <= w.c.serial;
  }

  lemma NothingRequested(w: World, c: Component)
    requires Inv(w) && LoadMore(w.c) == (c, None)
    ensures Inv(World(c, w.inflight, w.accepted)) && w.inflight + {} == w.inflight
  {
    hide DistinctIds;
    assert forall r | r in w.inflight && r.serial == w.c.serial :: Pending(w, r);
  }

  lemma MoreSeen(seen: set<string>, cursor: string)
    requires cursor !in seen
    ensures |seen + {cursor}| == |seen| + 1
  {
  }

  lemma FirstArrives(w: World, request: Request, response: Response)
    requires Inv(w) && request in w.inflight && request.First? && request.serial == w.c.serial
    ensures Inv(Next(w, Arriving(request, response)))
  {
    hide Additions;
    assert Pending(w, request);
    if response.Paged? {
      AdditionsDistinct([], response.page.items);
      hide DistinctIds;
      if response.page.nextCursor.Some? {
        MoreSeen({}, response.page.nextCursor.value);
      }
    }
  }

  lemma MoreArrives(w: World, request: Request, response: Response)
    requires Inv(w) && request in w.inflight && request.More? && request.serial == w.c.serial
    ensures Inv(Next(w, Arriving(request, response)))
  {
    hide Additions, DistinctIds;
    assert Pending(w, request);
    if response.Paged? {
      AdditionsDistinct(w.c.pagination.revisions, response.page.items);
      if response.page.nextCursor.Some? {
        var cursor := response.page.nextCursor.value;
        if cursor !in w.c.pagination.seen {
          MoreSeen(w.c.pagination.seen, cursor);
        } else {
          assert w.c.pagination.seen + {cursor} == w.c.pagination.seen;
        }
      }
    }
  }

  lemma StepKeeps(w: World, e: Event)
    requires Inv(w) && Enabled(w, e)
    ensures Inv(Next(w, e))
  {
    match e
    case Reloading => ReloadKeeps(w);
    case LoadingMore => LoadMoreKeeps(w);
    case Arriving(request, response) =>
      if request.serial == w.c.serial {
        if request.First? {
          FirstArrives(w, request, response);
        } else {
          MoreArrives(w, request, response);
        }
      }
  }

  /** In every reachable state of the timeline the revision ids are distinct. */
  lemma {:induction false} AlwaysInv(worlds: seq<World>, events: seq<Event>, i: nat)
    requires Run(worlds, events) && i < |worlds|
    ensures Inv(worlds[i]) && DistinctIds(worlds[i].c.pagination.revisions)
  {
    hide Inv, Next, Enabled;
    if i == 0 {
      StartInv();
    } else {
      AlwaysInv(worlds, events, i - 1);
      StepKeeps(worlds[i - 1], events[i - 1]);
    }
    InvDistinct(worlds[i]);
  }

  lemma InvDistinct(w: World)
    requires Inv(w)
    ensures DistinctIds(w.c.pagination.revisions)
  {
  }

  /** Within a cycle items are only ever appended. */
  lemma OnlyAppends(w: World, e: Event)
    requires Inv(w) && Enabled(w, e) && !e.Reloading?
    ensures w.c.pagination.revisions <= Next(w, e).c.pagination.revisions
  {
    hide Additions, DistinctIds;
    if e.Arriving? && e.request.serial == w.c.serial {
      assert Pending(w, e.request);
    }
  }

  /** A response to a request of an earlier cycle, or one overtaken by a newer request, changes nothing. */
  lemma LateIsIgnored(w: World, e: Event)
    requires e.Arriving? && e.request.serial != w.c.serial
    ensures Next(w, e).c == w.c && Next(w, e).accepted == w.accepted
  {
  }

  // ---- cursors --------------------------------------------------------------

  /** Nothing more is asked for before a new cycle. */
  predicate GaveUp(c: Component) {
    c.pagination.nextCursor.None? && !c.loadingMore && LoadMore(c) == (c, None)
  }

  /** WHEN THE TIMELINE GIVES UP. On an answer that cannot be read, a page that repeats the cursor it was asked with and
      one whose cursor was seen before, the items stay and nothing more is asked for; on a failed request the cursor is
      free to be asked for again; any other page is merged in and its cursor is next. */
  lemma WhenGivenUp(c: Component, request: Request, response: Response)
    requires request.More? && request.serial == c.serial
    ensures var (c', p) := (Receive(c, request, response), c.pagination);
            && c'.serial == c.serial && !c'.loadingMore
            && match response
               case Invalid => GaveUp(c') && c'.pagination.revisions == p.revisions && c'.pagination.seen == p.seen
               case Failed =>
                 && c'.pagination.revisions == p.revisions && c'.pagination.nextCursor == p.nextCursor
                 && (p.nextCursor == Some(request.cursor) ==>
                       LoadMore(c').1 == Some(More(c.serial + 1, request.cursor)))
               case Paged(page) =>
                 if page.nextCursor == Some(request.cursor)
                    || (page.nextCursor.Some? && page.nextCursor.value in p.seen)
                 then GaveUp(c') && c'.pagination.revisions == p.revisions
                 else
                   && c'.pagination.nextCursor == page.nextCursor
                   && c'.pagination.revisions == p.revisions + Additions(p.revisions, page.items)
  {
    hide Additions;
  }

  /** A cursor that was reserved before and not released ends the timeline too, and every refusal has its reason. */
  lemma Refusals(state: State, cursor: string, requestCursor: Option<string>, page: Page)
    ensures var t := Begin(state, cursor);
            if state.nextCursor != Some(cursor) then t == Refused(CursorUnavailable, state)
            else if cursor in state.requested then t == Refused(CursorRepeated, state)
            else t.Accepted?
    ensures var t := Apply(state, requestCursor, page);
            if page.nextCursor.Some? && page.nextCursor == requestCursor then t.Refused? && t.reason == SameCursor
            else if page.nextCursor.Some? && page.nextCursor.value in state.seen then t.Refused?
              && t.reason == CursorCycle
            else t.Accepted?
    ensures forall serial: nat | state.nextCursor.Some? && state.nextCursor.value in state.requested ::
              var c := LoadMore(Component(serial, state, false)).0;
              GaveUp(c) && c.pagination.revisions == state.revisions
  {
    hide Additions;
  }

  predicate Reserves(w: World, e: Event, cursor: string) {
    e.LoadingMore? && LoadMore(w.c).1.Some? && LoadMore(w.c).1.value.cursor == cursor
  }

  predicate Releases(w: World, e: Event, cursor: string) {
    e.Arriving? && e.request == More(w.c.serial, cursor) && e.response.Failed?
  }

  lemma ReservedStays(w: World, e: Event, cursor: string)
    requires Inv(w) && Enabled(w, e) && cursor in w.c.pagination.requested
    requires !e.Reloading? && !Releases(w, e, cursor)
    ensures cursor in Next(w, e).c.pagination.requested && !Reserves(w, e, cursor)
  {
    hide Additions, DistinctIds;
    if e.Arriving? && e.request.serial == w.c.serial {
      assert Pending(w, e.request);
    }
  }

  lemma {:induction false} StillReserved(worlds: seq<World>, events: seq<Event>, i: nat, j: nat, cursor: string)
    requires Run(worlds, events) && i < j <= |events| && Reserves(worlds[i], events[i], cursor)
    requires forall k | i < k < j :: !events[k].Reloading? && !Releases(worlds[k], events[k], cursor)
    ensures cursor in worlds[j].c.pagination.requested
    decreases j
  {
    hide Inv, Releases, Reserves, Next, Enabled;
    if j > i + 1 {
      StillReserved(worlds, events, i, j - 1, cursor);
      AlwaysInv(worlds, events, j - 1);
      ReservedStays(worlds[j - 1], events[j - 1], cursor);
    } else {
      NowReserved(worlds[i], events[i], cursor);
    }
  }

  lemma NowReserved(w: World, e: Event, cursor: string)
    requires Reserves(w, e, cursor)
    ensures cursor in Next(w, e).c.pagination.requested
  {
  }

  /** Between two reservations of one cursor there is a release of it or a new cycle. */
  lemma ReservedOnce(worlds: seq<World>, events: seq<Event>, i: nat, j: nat, cursor: string)
    requires Run(worlds, events) && i < j < |events|
    requires Reserves(worlds[i], events[i], cursor) && Reserves(worlds[j], events[j], cursor)
    ensures exists k | i < k < j :: events[k].Reloading? || Releases(worlds[k], events[k], cursor)
  {
    hide Inv, Releases, Reserves, Next, Enabled;
    if forall k | i < k < j :: !events[k].Reloading? && !Releases(worlds[k], events[k], cursor) {
      StillReserved(worlds, events, i, j, cursor);
      AlwaysInv(worlds, events, j);
      NotAgain(worlds[j], events[j], cursor);
    }
  }

  lemma NotAgain(w: World, e: Event, cursor: string)
    requires cursor in w.c.pagination.requested
    ensures !Reserves(w, e, cursor)
  {
  }

  // ---- termination ----------------------------------------------------------

  predicate CursorIn(e: Event, k: set<string>) {
    e.Arriving? && e.response.Paged? && e.response.page.nextCursor.Some? ==> e.response.page.nextCursor.value in k
  }

  lemma SeenWithin(w: World, e: Event, k: set<string>)
    requires Inv(w) && Enabled(w, e) && CursorIn(e, k) && w.c.pagination.seen <= k
    ensures Next(w, e).c.pagination.seen <= k
  {
    hide Additions, DistinctIds;
  }

  lemma {:induction false} SeenAlwaysWithin(worlds: seq<World>, events: seq<Event>, k: set<string>, i: nat)
    requires Run(worlds, events) && i < |worlds| && forall j | 0 <= j < |events| :: CursorIn(events[j], k)
    ensures worlds[i].c.pagination.seen <= k
  {
    hide Inv, Next, Enabled, CursorIn;
    if i > 0 {
      SeenAlwaysWithin(worlds, events, k, i - 1);
      AlwaysInv(worlds, events, i - 1);
      SeenWithin(worlds[i - 1], events[i - 1], k);
    }
  }

  /** Against a server that draws its cursors from a set of k, no cycle accepts more than k + 1 pages. */
  lemma PagesBounded(worlds: seq<World>, events: seq<Event>, k: set<string>, i: nat)
    requires Run(worlds, events) && i < |worlds| && forall j | 0 <= j < |events| :: CursorIn(events[j], k)
    ensures worlds[i].accepted <= |k| + 1
  {
    hide CursorIn, Next, Enabled;
    SeenAlwaysWithin(worlds, events, k, i);
    AlwaysInv(worlds, events, i);
    SubsetSize(worlds[i].c.pagination.seen, k);
  }

  lemma {:induction false} SubsetSize(a: set<string>, b: set<string>)
    requires a <= b
    ensures |a| <= |b|
  {
    if a != {} {
      var x :| x in a;
      SubsetSize(a - {x}, b - {x});
    }
  }
}
