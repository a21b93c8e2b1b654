/** What holds in every run of the store: linear immutable histories, no lost update, nothing served that
    was not published, and tokens that stay revoked. */
module StoreSafety {
  import opened Wrappers
  import opened Store
  import opened StoreRuns

  // ---- every step keeps the invariant ---------------------------------------

  /** Only issuing adds a token; no action changes a token's project or secret. */
  lemma TokenRows(db: Db, a: Action, t: string)
    requires t in Effect(db, a).tokens && !a.Issuing?
    ensures t in db.tokens
    ensures Effect(db, a).tokens[t].project == db.tokens[t].project
            && Effect(db, a).tokens[t].secret == db.tokens[t].secret
  {
    hide NumberTaken, FetchProject, NextNumber;
  }

  lemma TokenOwner(db: Db, a: Action, t: string)
    requires t in db.tokens && t in Effect(db, a).tokens && db.tokens[t].project in db.projects
    ensures db.tokens[t].project in Effect(db, a).projects
  {
    hide NumberTaken, FetchProject, NextNumber;
  }

  lemma EffectTokens(w: World, a: Action)
    requires TokensOk(w.db) && UsedOk(w) && Drawn(a) !! w.used
    ensures TokensOk(Effect(w.db, a))
    ensures Effect(w.db, a).tokens.Keys <= w.db.tokens.Keys + Drawn(a)
    ensures forall t | t in Effect(w.db, a).tokens :: Effect(w.db, a).tokens[t].secret in w.used + Drawn(a)
  {
    var db, db' := w.db, Effect(w.db, a);
    if a.Issuing? {
      IssueTokens(w, a);
    } else {
      hide Effect, Drawn;
      forall t | t in db'.tokens
        ensures t in db.tokens && db'.tokens[t].project == db.tokens[t].project
                && db'.tokens[t].secret == db.tokens[t].secret
        ensures db'.tokens[t].project in db'.projects
      {
        TokenRows(db, a, t);
        TokenOwner(db, a, t);
      }
    }
  }

  lemma IssueTokens(w: World, a: Action)
    requires TokensOk(w.db) && UsedOk(w) && Drawn(a) !! w.used && a.Issuing?
    ensures TokensOk(Effect(w.db, a))
    ensures Effect(w.db, a).tokens.Keys <= w.db.tokens.Keys + Drawn(a)
    ensures forall t | t in Effect(w.db, a).tokens :: Effect(w.db, a).tokens[t].secret in w.used + Drawn(a)
  {
  }

  lemma NextTickets(w: World, a: Action, accepts: Validator)
    requires Inv(w, accepts) && Enabled(w, a, accepts)
    ensures TicketsOk(Next(w, a, accepts), accepts)
  {
    hide Linear, Validated, TokensOk, Effect, Drawn;
    EffectEvolves(w.db, a);
  }

  lemma StepKeepsInv(w: World, a: Action, accepts: Validator)
    requires Inv(w, accepts) && Enabled(w, a, accepts)
    ensures Inv(Next(w, a, accepts), accepts)
  {
    hide Linear, Validated, TokensOk, TicketsOk, Effect, Drawn, Tickets;
    EffectEvolves(w.db, a);
    EffectLinear(w.db, a);
    EffectValidated(w, a, accepts);
    EffectTokens(w, a);
    NextTickets(w, a, accepts);
  }

  lemma InitialInv(accepts: Validator)
    ensures Inv(Initial, accepts)
  {
  }

  /** Every reachable store satisfies the invariant. */
  lemma {:induction false} RunKeepsInv(worlds: seq<World>, actions: seq<Action>, accepts: Validator, i: nat)
    requires Run(worlds, actions, accepts) && worlds[0] == Initial && i < |worlds|
    ensures Inv(worlds[i], accepts)
  {
    hide Inv, Enabled, Next;
    if i == 0 {
      InitialInv(accepts);
    } else {
      RunKeepsInv(worlds, actions, accepts, i - 1);
      StepKeepsInv(worlds[i - 1], actions[i - 1], accepts);
    }
  }

  // ---- a history is numbered 1..n -------------------------------------------

  /** The ancestor with a given number, found by following parents. */
  ghost function Ancestor(db: Db, id: string, k: int): (a: string)
    requires Linear(db) && id in db.revisions && 1 <= k <= db.revisions[id].no
    ensures a in db.revisions && db.revisions[a].project == db.revisions[id].project && db.revisions[a].no == k
    decreases db.revisions[id].no
  {
    assert ChainOk(db, id);
    if k == db.revisions[id].no then id else Ancestor(db, db.revisions[id].parent.value, k)
  }

  ghost predicate Numbered(db: Db, p: string, k: int, id: string) {
    id in db.revisions && db.revisions[id].project == p && db.revisions[id].no == k
  }

  ghost predicate HasNumber(db: Db, p: string, k: int) {
    exists id :: Numbered(db, p, k, id)
  }

  /** A live project's revisions are numbered 1 to n with nothing missing or double; n is the current one,
      the served one is among them. */
  lemma HistoryIsLinear(db: Db, p: string)
    requires Linear(db) && p in db.projects
    ensures OwnRevision(db, p, db.projects[p].current) && OwnRevision(db, p, db.projects[p].served)
    ensures var n := db.revisions[db.projects[p].current.value].no;
            && 1 <= db.revisions[db.projects[p].served.value].no <= n
            && (forall k | 1 <= k <= n :: HasNumber(db, p, k))
            && (forall k, a, b | Numbered(db, p, k, a) && Numbered(db, p, k, b) :: a == b)
            && (forall k, id | Numbered(db, p, k, id) :: 1 <= k <= n)
  {
    assert PointersOk(db, p);
    var current := db.projects[p].current.value;
    var n := db.revisions[current].no;
    forall k | 1 <= k <= n
      ensures HasNumber(db, p, k)
    {
      assert Numbered(db, p, k, Ancestor(db, current, k));
    }
    forall k, id | Numbered(db, p, k, id)
      ensures 1 <= k <= n
    {
      assert ChainOk(db, id) && BelowCurrent(db, id);
    }
    assert BelowCurrent(db, db.projects[p].served.value);
  }

  // ---- pointers only move forward -------------------------------------------

  function CurrentNo(db: Db, p: string): int
    requires p in db.projects && OwnRevision(db, p, db.projects[p].current)
  {
    db.revisions[db.projects[p].current.value].no
  }

  function ServedNo(db: Db, p: string): int
    requires p in db.projects && OwnRevision(db, p, db.projects[p].served)
  {
    db.revisions[db.projects[p].served.value].no
  }

  ghost predicate Forward(db: Db, db': Db, p: string) {
    && p in db.projects && PointersOk(db, p) && p in db'.projects && PointersOk(db', p)
    && CurrentNo(db', p) >= CurrentNo(db, p) && ServedNo(db', p) >= ServedNo(db, p)
  }

  /** While a project lives, neither its draft nor its served revision number ever decreases. */
  lemma PointersForward(w: World, a: Action, accepts: Validator, p: string)
    requires Inv(w, accepts) && Enabled(w, a, accepts)
    requires p in w.db.projects && p in Effect(w.db, a).projects
    ensures Forward(w.db, Effect(w.db, a), p)
  {
    hide Effect, Drawn, Linear, Inv, Enabled;
    var db, db' := w.db, Effect(w.db, a);
    InvParts(w, a, accepts);
    EffectLinear(db, a);
    ServedOf(db, p);
    ServedOf(db', p);
    RowsForward(w, a, accepts, p);
    CurrentStays(db, a, p);
    ServedStays(db, a, p);
    ServedBelowCurrent(db, p);
  }

  lemma InvParts(w: World, a: Action, accepts: Validator)
    requires Inv(w, accepts) && Enabled(w, a, accepts)
    ensures Linear(w.db) && Drawn(a) !! w.db.projects.Keys
  {
    hide Linear, Validated, TokensOk, TicketsOk, Drawn;
  }

  lemma RowsForward(w: World, a: Action, accepts: Validator, p: string)
    requires Inv(w, accepts) && Enabled(w, a, accepts) && p in Effect(w.db, a).projects
    ensures var db' := Effect(w.db, a);
            forall r | r in w.db.revisions && w.db.revisions[r].project == p :: r in db'.revisions
              && db'.revisions[r] == w.db.revisions[r]
  {
    hide Effect, Linear, TokensOk, TicketsOk, Validated;
    EffectEvolves(w.db, a);
    RowsStay(w.db, Effect(w.db, a), Drawn(a), p);
  }

  lemma ServedBelowCurrent(db: Db, p: string)
    requires Linear(db) && p in db.projects
    ensures PointersOk(db, p) && ServedNo(db, p) <= CurrentNo(db, p)
  {
    assert PointersOk(db, p);
    assert BelowCurrent(db, db.projects[p].served.value);
  }

  lemma RowsStay(db: Db, db': Db, drawn: set<string>, p: string)
    requires Evolves(db, db', drawn) && p in db'.projects
    ensures forall r | r in db.revisions && db.revisions[r].project == p ::
              r in db'.revisions && db'.revisions[r] == db.revisions[r]
  {
  }

  /** The draft moves only to a new revision on top of it. */
  lemma CurrentStays(db: Db, a: Action, p: string)
    requires Linear(db) && p in db.projects && p in Effect(db, a).projects && Drawn(a) !! db.projects.Keys
    ensures var db' := Effect(db, a);
            && OwnRevision(db, p, db.projects[p].current)
            && (db'.projects[p].current == db.projects[p].current
                || (&& OwnRevision(db', p, db'.projects[p].current)
                    && db'.revisions[db'.projects[p].current.value].no == CurrentNo(db, p) + 1))
  {
    hide NumberTaken, FetchProject, NextNumber, Linear, Create, Publish, Delete, Rename, CreateToken, UpdateToken,
      RevokeToken, PurgeToken;
    ServedOf(db, p);
    match a
    case Saving(t, revisionId, validation, now) =>
      SaveNumber(db, t.project, t.expected, revisionId, t.source, validation, now);
    case Creating(_, _, _, _, _, _, _, _) => CreateOther(db, a, p);
    case Publishing(_, _, _, _) => PublishOther(db, a, p);
    case Deleting(id) => DeleteOther(db, id, p);
    case _ => OtherPointers(db, a, p);
  }

  lemma SaveNumber(db: Db, id: string, expected: string, revisionId: string, source: seq<byte>, validation: string,
      now: int)
    requires Linear(db)
    ensures var (db', r) := Save(db, id, expected, revisionId, source, validation, now);
            db'.revisions != db.revisions ==>
              && id in db.projects && db.projects[id].current == Some(expected) && OwnRevision(db, id, Some(expected))
              && id in db'.projects && db'.projects[id].current == Some(revisionId)
                 && OwnRevision(db', id, Some(revisionId))
              && db'.revisions[revisionId].no == db.revisions[expected].no + 1
  {
    hide Linear, FetchProject, NextNumber;
    if id in db.projects {
      ServedOf(db, id);
      var current := db.projects[id].current.value;
      if !NumberTaken(db, id, NextNumber(db.revisions[current].no)) {
        NextIsNew(db, id, current);
      }
    }
  }

  lemma CreateOther(db: Db, a: Action, p: string)
    requires a.Creating? && p in db.projects && a.id != p
    ensures p in Effect(db, a).projects && Effect(db, a).projects[p] == db.projects[p]
  {
  }

  lemma PublishOther(db: Db, a: Action, p: string)
    requires a.Publishing? && p in db.projects
    ensures var db' := Effect(db, a);
            && p in db'.projects && db'.projects[p].current == db.projects[p].current && db'.revisions == db.revisions
            && (db'.projects[p].served == db.projects[p].served
                || (a.id == p && db'.projects[p].served == db.projects[p].current == Some(a.expectedCurrent)))
  {
  }

  lemma DeleteOther(db: Db, id: string, p: string)
    requires p in db.projects && p in Delete(db, id).0.projects
    ensures Delete(db, id).0.projects[p] == db.projects[p]
  {
  }

  lemma OtherPointers(db: Db, a: Action, p: string)
    requires !a.Creating? && !a.Saving? && !a.Publishing? && !a.Deleting? && p in db.projects
    ensures var db' := Effect(db, a);
            && p in db'.projects && db'.projects[p].current == db.projects[p].current
            && db'.projects[p].served == db.projects[p].served && db'.revisions == db.revisions
  {
  }

  lemma SaveServed(db: Db, a: Action, p: string)
    requires a.Saving? && p in db.projects
    ensures p in Effect(db, a).projects && Effect(db, a).projects[p].served == db.projects[p].served
  {
  }

  /** The served pointer moves only by a publish that names its new value. */
  lemma ServedStays(db: Db, a: Action, p: string)
    requires p in db.projects && p in Effect(db, a).projects && Drawn(a) !! db.projects.Keys
    ensures var db' := Effect(db, a);
            || db'.projects[p].served == db.projects[p].served
            || (a.Publishing? && a.id == p && db'.projects[p].served == db.projects[p].current
                == Some(a.expectedCurrent))
  {
    hide NumberTaken, FetchProject, Create, Save, Publish, Delete, Rename, CreateToken, UpdateToken, RevokeToken,
      PurgeToken;
    match a
    case Creating(_, _, _, _, _, _, _, _) => CreateOther(db, a, p);
    case Publishing(_, _, _, _) => PublishOther(db, a, p);
    case Deleting(id) => DeleteOther(db, id, p);
    case Saving(_, _, _, _) => SaveServed(db, a, p);
    case _ => OtherPointers(db, a, p);
  }

  // ---- no lost update -------------------------------------------------------

  /** A save that succeeds and makes a new revision. */
  predicate ChangingSave(w: World, a: Action, p: string, expected: string) {
    && a.Saving? && a.ticket.project == p && a.ticket.expected == expected
    && var r := Save(w.db, p, expected, a.revisionId, a.ticket.source, a.validation, a.now).1;
    r.Ok? && !r.value.same
  }

  /** The draft has left `expected` behind for good. */
  ghost predicate Past(w: World, p: string, expected: string) {
    && p in w.used
    && (p in w.db.projects ==>
          && OwnRevision(w.db, p, Some(expected)) && OwnRevision(w.db, p, w.db.projects[p].current)
          && CurrentNo(w.db, p) > w.db.revisions[expected].no)
  }

  lemma SaveMakesPast(w: World, a: Action, accepts: Validator, p: string, expected: string)
    requires Inv(w, accepts) && Enabled(w, a, accepts) && ChangingSave(w, a, p, expected)
    ensures Past(Next(w, a, accepts), p, expected)
  {
    hide Linear, Validated, TokensOk, TicketsOk, NumberTaken, NextNumber, FetchProject;
    SaveNumber(w.db, p, expected, a.revisionId, a.ticket.source, a.validation, a.now);
  }

  lemma PastStays(w: World, a: Action, accepts: Validator, p: string, expected: string)
    requires Inv(w, accepts) && Enabled(w, a, accepts) && Past(w, p, expected)
    ensures Past(Next(w, a, accepts), p, expected)
  {
    var db, db' := w.db, Effect(w.db, a);
    EffectEvolves(db, a);
    if p in db'.projects {
      PointersForward(w, a, accepts, p);
      RowsStay(db, db', Drawn(a), p);
      hide Linear, Validated, TokensOk, TicketsOk, Effect, Drawn, Evolves, Tickets;
    }
  }

  lemma PastRefuses(w: World, a: Action, p: string, expected: string)
    requires Past(w, p, expected)
    ensures !ChangingSave(w, a, p, expected)
  {
    hide NumberTaken, FetchProject;
  }

  lemma {:induction false} PastForever(worlds: seq<World>, actions: seq<Action>, accepts: Validator, i: nat, j: nat,
      p: string, expected: string)
    requires Run(worlds, actions, accepts) && worlds[0] == Initial
    requires i < j < |worlds| && ChangingSave(worlds[i], actions[i], p, expected)
    ensures Past(worlds[j], p, expected)
    decreases j
  {
    hide Past, ChangingSave, Inv, Enabled, Next;
    RunKeepsInv(worlds, actions, accepts, j - 1);
    if j == i + 1 {
      SaveMakesPast(worlds[i], actions[i], accepts, p, expected);
    } else {
      PastForever(worlds, actions, accepts, i, j - 1, p, expected);
      PastStays(worlds[j - 1], actions[j - 1], accepts, p, expected);
    }
  }

  /** NO LOST UPDATE. In any run at most one save that names a given expected revision makes a new one. */
  lemma NoLostUpdate(worlds: seq<World>, actions: seq<Action>, accepts: Validator, i: nat, j: nat, p: string,
      expected: string)
    requires Run(worlds, actions, accepts) && worlds[0] == Initial && i < |actions| && j < |actions|
    requires ChangingSave(worlds[i], actions[i], p, expected) && ChangingSave(worlds[j], actions[j], p, expected)
    ensures i == j
  {
    hide Past, ChangingSave, Inv, Enabled, Next, Initial;
    if i < j {
      PastForever(worlds, actions, accepts, i, j, p, expected);
      PastRefuses(worlds[j], actions[j], p, expected);
    } else if j < i {
      PastForever(worlds, actions, accepts, j, i, p, expected);
      PastRefuses(worlds[i], actions[i], p, expected);
    }
  }

  // ---- when the transactions succeed ----------------------------------------

  /** Nothing but the row of project `id` differs, and there neither the name nor what is served. */
  predicate OnlyProject(db: Db, db': Db, id: string) {
    && db'.tokens == db.tokens && id in db.projects && id in db'.projects
    && db'.projects == db.projects[id := db'.projects[id]]
    && db'.projects[id].name == db.projects[id].name && db'.projects[id].served == db.projects[id].served
  }

  /** The caller's expected revision is the draft. */
  predicate Expects(db: Db, id: string, expected: string) {
    id in db.projects && db.projects[id].current == Some(expected) && OwnRevision(db, id, Some(expected))
  }

  /** The bytes were the draft's already: no revision, the same pointers. */
  predicate Kept(db: Db, db': Db, id: string, expected: string, source: seq<byte>, view: ProjectView) {
    && OnlyProject(db, db', id) && db'.revisions == db.revisions && db'.projects[id].current == Some(expected)
    && view.current == expected && view.source == source && Some(view.served) == db.projects[id].served
  }

  /** One new revision holds the caller's bytes on top of the expected one and is the draft. */
  predicate Grown(db: Db, db': Db, id: string, expected: string, revisionId: string, source: seq<byte>,
      view: ProjectView) {
    && OnlyProject(db, db', id) && db'.projects[id].current == Some(revisionId)
    && revisionId in db'.revisions && db'.revisions == db.revisions[revisionId := db'.revisions[revisionId]]
    && db'.revisions[revisionId].project == id && db'.revisions[revisionId].parent == Some(expected)
    && db'.revisions[revisionId].source == source
    && view.current == revisionId && view.source == source && Some(view.served) == db.projects[id].served
  }

  /** A save of the draft's own bytes by a caller who knows the draft succeeds. */
  lemma SaveKeeps(db: Db, id: string, expected: string, revisionId: string, source: seq<byte>, validation: string,
      now: int)
    requires Linear(db) && Expects(db, id, expected) && db.revisions[expected].source == source
    ensures var (db', r) := Save(db, id, expected, revisionId, source, validation, now);
            r.Ok? && r.value.same && Kept(db, db', id, expected, source, r.value.view)
  {
    hide Linear;
    ServedOf(db, id);
    var p := db.projects[id].(validation := validation, updatedAt := now);
    Readable(SetProject(db, id, p), id);
  }

  /** A save of other bytes under a fresh id does too, unless the numbers are exhausted. */
  lemma SaveGrows(db: Db, id: string, expected: string, revisionId: string, source: seq<byte>, validation: string,
      now: int)
    requires Linear(db) && revisionId !in db.revisions && Expects(db, id, expected)
             && db.revisions[expected].source != source
    ensures var (db', r) := Save(db, id, expected, revisionId, source, validation, now);
            if db.revisions[expected].no == I64_MAX then db' == db && r.Err?
            else r.Ok? && !r.value.same && Grown(db, db', id, expected, revisionId, source, r.value.view)
  {
    hide Linear, NumberTaken, NextNumber;
    ServedOf(db, id);
    NumberFree(db, id);
    var row := Revision(id, Some(expected), NextNumber(db.revisions[expected].no), source, validation, now);
    var p := db.projects[id].(current := Some(revisionId), validation := validation, updatedAt := now);
    Readable(SetProject(db.(revisions := db.revisions[revisionId := row]), id, p), id);
  }

  /** A project whose pointers are its own revisions can be read back. */
  lemma Readable(db: Db, id: string)
    requires id in db.projects && OwnRevision(db, id, db.projects[id].current) && db.projects[id].served.Some?
    ensures var r := FetchProject(db, id);
            && r.Ok? && r.value.id == id && db.projects[id].current == Some(r.value.current)
            && db.projects[id].served == Some(r.value.served) && r.value.source == db.revisions[r.value.current].source
  {
  }

  /** Anyone else is refused, and nothing changes. */
  lemma SaveRefused(db: Db, id: string, expected: string, revisionId: string, source: seq<byte>, validation: string,
      now: int)
    requires Linear(db) && !Expects(db, id, expected)
    ensures var (db', r) := Save(db, id, expected, revisionId, source, validation, now);
            db' == db && r == Err(if id in db.projects then Conflict else ProjectNotFound)
  {
    hide Linear, NumberTaken, FetchProject;
    if id in db.projects {
      ServedOf(db, id);
    }
  }

  /** A save under a fresh id succeeds exactly when the caller's expected revision is the draft and the number
      of a needed new revision is not exhausted. */
  lemma SaveSucceeds(db: Db, id: string, expected: string, revisionId: string, source: seq<byte>, validation: string,
      now: int)
    requires Linear(db) && revisionId !in db.revisions
    ensures Save(db, id, expected, revisionId, source, validation, now).1.Ok?
            <==> Expects(db, id, expected)
                 && (db.revisions[expected].source == source || db.revisions[expected].no != 9_223_372_036_854_775_807)
  {
    hide Linear, Save, Kept, Grown;
    if !Expects(db, id, expected) {
      SaveRefused(db, id, expected, revisionId, source, validation, now);
    } else if db.revisions[expected].source == source {
      SaveKeeps(db, id, expected, revisionId, source, validation, now);
    } else {
      SaveGrows(db, id, expected, revisionId, source, validation, now);
    }
  }

  /** The number after the draft's is free unless the draft has the largest there is. */
  lemma NumberFree(db: Db, id: string)
    requires Linear(db) && id in db.projects && OwnRevision(db, id, db.projects[id].current)
    ensures NumberTaken(db, id, NextNumber(CurrentNo(db, id))) <==> CurrentNo(db, id) == I64_MAX
  {
    hide NumbersUnique;
    forall k | k in db.revisions && db.revisions[k].project == id
      ensures db.revisions[k].no <= CurrentNo(db, id)
    {
      assert BelowCurrent(db, k);
    }
    var current := db.projects[id].current.value;
    assert db.revisions[current].project == id;
  }

  /** A publish succeeds exactly when the caller knows the draft, and, if the two differ, what is served. */
  lemma PublishSucceeds(db: Db, id: string, expectedCurrent: string, expectedServed: string, now: int)
    requires Linear(db)
    ensures var (db', r) := Publish(db, id, expectedCurrent, expectedServed, now);
            && (r.Ok? <==>
                  && id in db.projects && db.projects[id].current == Some(expectedCurrent)
                  && (db.projects[id].served == Some(expectedServed)
                      || db.projects[id].served == Some(expectedCurrent)))
            && (r.Ok? ==> r.value.same == (db.projects[id].served == Some(expectedCurrent)))
            && db'.revisions == db.revisions && db'.tokens == db.tokens
  {
    hide Linear;
    if id in db.projects {
      ServedOf(db, id);
    }
  }

  /** A token is updated exactly when it is active and still as the caller last saw it. */
  lemma UpdateTokenSucceeds(db: Db, project: string, id: string, name: string, expiresAt: Option<int>,
      expectedName: string, expectedExpiresAt: Option<int>)
    ensures var (db', r) := UpdateToken(db, project, id, name, expiresAt, expectedName, expectedExpiresAt);
            && (r.Ok? <==>
                  && project in db.projects && ActiveToken(db, project, id)
                  && db.tokens[id].name == expectedName && db.tokens[id].expiresAt == expectedExpiresAt)
            && (r.Err? ==> db' == db)
            && (r.Ok? ==>
                  && ActiveToken(db', project, id) && db'.tokens[id].name == name
                     && db'.tokens[id].expiresAt == expiresAt
                  && db'.tokens[id].secret == db.tokens[id].secret
                  && forall t | t in db.tokens && t != id :: t in db'.tokens && db'.tokens[t] == db.tokens[t])
  {
  }

  /** A delete takes along exactly the project's revisions and tokens. */
  lemma DeleteCascades(db: Db, id: string)
    requires id in db.projects
    ensures var (db', r) := Delete(db, id);
            && r.Ok? && db'.projects.Keys == db.projects.Keys - {id}
            && (forall k :: k in db'.revisions <==> k in db.revisions && db.revisions[k].project != id)
            && (forall k :: k in db'.tokens <==> k in db.tokens && db.tokens[k].project != id)
            && (forall plaintext, now, k :: Serves(db', k, plaintext, now) ==> db.tokens[k].project != id)
  {
  }

  // ---- what is served -------------------------------------------------------

  /** After a successful publish the served revision is the one the caller named; otherwise nothing
      changed. */
  lemma PublishServesNamed(db: Db, id: string, expectedCurrent: string, expectedServed: string, now: int)
    ensures var (db', r) := Publish(db, id, expectedCurrent, expectedServed, now);
            && (r.Ok? ==>
                  && id in db'.projects
                  && db'.projects[id].served == db'.projects[id].current == Some(expectedCurrent)
                  && (r.value.same || db.projects[id].served == Some(expectedServed)))
            && (r.Err? ==> db' == db)
  {
  }

  /** The action that made `id` the served revision of `p`. */
  predicate MadeServed(a: Action, p: string, id: string) {
    (a.Creating? && a.id == p && a.revisionId == id) || (a.Publishing? && a.id == p && a.expectedCurrent == id)
  }

  lemma BornServed(db: Db, a: Action, p: string)
    requires p !in db.projects && p in Effect(db, a).projects
    ensures a.Creating? && a.id == p && Effect(db, a).projects[p].served == Some(a.revisionId)
  {
    hide NumberTaken, FetchProject;
  }

  /** NO DRAFT LEAK. Whatever is served was named by the create or by a publish earlier in the run. */
  lemma {:induction false} ServedWasPublished(worlds: seq<World>, actions: seq<Action>, accepts: Validator, i: nat,
      p: string)
    requires Run(worlds, actions, accepts) && worlds[0] == Initial && i < |worlds| && p in worlds[i].db.projects
    ensures worlds[i].db.projects[p].served.Some?
    ensures exists k | 0 <= k < i :: MadeServed(actions[k], p, worlds[i].db.projects[p].served.value)
  {
    hide Effect, Drawn, Tickets, MadeServed, Linear, Validated, TokensOk, TicketsOk;
    assert i > 0;
    RunKeepsInv(worlds, actions, accepts, i);
    RunKeepsInv(worlds, actions, accepts, i - 1);
    var w, a := worlds[i - 1], actions[i - 1];
    ServedOf(worlds[i].db, p);
    var served := worlds[i].db.projects[p].served.value;
    if p !in w.db.projects {
      BornServed(w.db, a, p);
      assert MadeServed(actions[i - 1], p, served) by {
        NowServed(a, p, served);
      }
    } else {
      ServedWasPublished(worlds, actions, accepts, i - 1, p);
      ServedStays(w.db, a, p);
      if w.db.projects[p].served != Some(served) {
        assert MadeServed(actions[i - 1], p, served) by {
          NowServed(a, p, served);
        }
      }
    }
  }

  lemma NowServed(a: Action, p: string, id: string)
    requires (a.Creating? && a.id == p && a.revisionId == id) || (a.Publishing? && a.id == p && a.expectedCurrent == id)
    ensures MadeServed(a, p, id)
  {
  }

  /** A subscription has one answer. */
  lemma AnswerUnique(db: Db, plaintext: string, now: int, r: Result<Subscription, Error>,
      s: Result<Subscription, Error>)
    requires TokensOk(db) && Answers(db, plaintext, now, r) && Answers(db, plaintext, now, s)
    ensures r == s
  {
    hide ServedBy;
    if r.Ok? {
      var id :| Serves(db, id, plaintext, now) && r.value == ServedBy(db, id);
      assert s.Ok?;
      var other :| Serves(db, other, plaintext, now) && s.value == ServedBy(db, other);
      assert id == other;
    }
  }

  /** Nothing but a publish, a delete or a change of the token itself alters what a subscription
      answers; in particular no save does. */
  lemma SubscriptionUnmoved(w: World, a: Action, accepts: Validator, plaintext: string, now: int,
      r: Result<Subscription, Error>)
    requires Inv(w, accepts) && Enabled(w, a, accepts)
    requires a.Saving? || a.Validating? || a.Renaming? || a.Touching? || a.Creating?
    ensures Answers(Effect(w.db, a), plaintext, now, r) <==> Answers(w.db, plaintext, now, r)
  {
    hide NumberTaken, FetchProject, NumbersUnique, Validated, TicketsOk;
    var db, db' := w.db, Effect(w.db, a);
    forall id
      ensures Serves(db', id, plaintext, now) <==> Serves(db, id, plaintext, now)
      ensures Serves(db, id, plaintext, now) ==> ServedBy(db', id) == ServedBy(db, id)
    {
      TokenUnmoved(w, a, id, plaintext, now);
    }
  }

  lemma TokenUnmoved(w: World, a: Action, id: string, plaintext: string, now: int)
    requires Linear(w.db) && TokensOk(w.db) && UsedOk(w) && Drawn(a) !! w.used
    requires a.Saving? || a.Validating? || a.Renaming? || a.Touching? || a.Creating?
    ensures Serves(Effect(w.db, a), id, plaintext, now) <==> Serves(w.db, id, plaintext, now)
    ensures Serves(w.db, id, plaintext, now) ==> ServedBy(Effect(w.db, a), id) == ServedBy(w.db, id)
  {
    var db, db' := w.db, Effect(w.db, a);
    TokenRow(db, a, id);
    if id in db.tokens {
      var p := db.tokens[id].project;
      ServedOf(db, p);
      EffectEvolves(db, a);
      ServedRow(db, a, p);
      RowsStay(db, db', Drawn(a), p);
      hide Linear, TokensOk, Effect, Drawn;
    }
  }

  lemma TokenRow(db: Db, a: Action, id: string)
    requires a.Saving? || a.Validating? || a.Renaming? || a.Touching? || a.Creating?
    ensures var db' := Effect(db, a);
            && (id in db'.tokens <==> id in db.tokens)
            && (id in db.tokens ==> db'.tokens[id] == db.tokens[id].(lastUsedAt := db'.tokens[id].lastUsedAt))
  {
    hide NumberTaken, FetchProject, NextNumber;
  }

  lemma ServedRow(db: Db, a: Action, p: string)
    requires a.Saving? || a.Validating? || a.Renaming? || a.Touching? || a.Creating?
    requires p in db.projects && Drawn(a) !! db.projects.Keys
    ensures p in Effect(db, a).projects && Effect(db, a).projects[p].served == db.projects[p].served
  {
    hide NumberTaken, FetchProject, NextNumber;
    if a.Creating? {
      CreateOther(db, a, p);
    } else if a.Saving? {
      SaveServed(db, a, p);
    } else {
      OtherPointers(db, a, p);
    }
  }

  // ---- tokens stay revoked --------------------------------------------------

  /** The token is revoked or purged, and its secret belongs to no other. */
  ghost predicate Dead(w: World, id: string, secret: string) {
    && id in w.used && secret in w.used
    && forall t | t in w.db.tokens && (t == id || w.db.tokens[t].secret == secret) ::
         t == id && w.db.tokens[t].secret == secret && w.db.tokens[t].revokedAt.Some?
  }

  lemma RevokedStays(db: Db, a: Action, t: string)
    requires t in db.tokens && db.tokens[t].revokedAt.Some? && t in Effect(db, a).tokens
    requires !(a.Issuing? && a.id == t)
    ensures Effect(db, a).tokens[t].revokedAt.Some? && Effect(db, a).tokens[t].secret == db.tokens[t].secret
  {
    hide NumberTaken, FetchProject, NextNumber;
  }

  lemma IssuedRow(db: Db, a: Action, t: string)
    requires a.Issuing? && t in Effect(db, a).tokens
    ensures (t == a.id && Effect(db, a).tokens[t].secret == a.secret)
            || (t in db.tokens && Effect(db, a).tokens[t] == db.tokens[t])
  {
    hide SecretTaken;
  }

  lemma DeadStays(w: World, a: Action, accepts: Validator, id: string, secret: string)
    requires Inv(w, accepts) && Enabled(w, a, accepts) && Dead(w, id, secret)
    ensures Dead(Next(w, a, accepts), id, secret)
  {
    hide Linear, Validated, TicketsOk, TokensOk, Tickets, Effect;
    var db' := Effect(w.db, a);
    forall t | t in db'.tokens && (t == id || db'.tokens[t].secret == secret)
      ensures t == id && db'.tokens[t].secret == secret && db'.tokens[t].revokedAt.Some?
    {
      if a.Issuing? {
        IssuedRow(w.db, a, t);
      } else {
        TokenRows(w.db, a, t);
        RevokedStays(w.db, a, t);
      }
    }
  }

  lemma DeadRefuses(w: World, id: string, secret: string, now: int, r: Result<Subscription, Error>)
    requires Dead(w, id, secret) && Answers(w.db, secret, now, r)
    ensures r == Err(TokenNotFound)
  {
  }

  lemma {:induction false} DeadForever(worlds: seq<World>, actions: seq<Action>, accepts: Validator, i: nat, j: nat,
      id: string)
    requires Run(worlds, actions, accepts) && worlds[0] == Initial && i <= j < |worlds|
    requires id in worlds[i].db.tokens && worlds[i].db.tokens[id].revokedAt.Some?
    ensures Dead(worlds[j], id, worlds[i].db.tokens[id].secret)
    decreases j
  {
    hide Dead, Inv, Enabled, Next;
    if i == j {
      RunKeepsInv(worlds, actions, accepts, i);
      RevokedIsDead(worlds[i], accepts, id);
    } else {
      RunKeepsInv(worlds, actions, accepts, j - 1);
      DeadForever(worlds, actions, accepts, i, j - 1, id);
      DeadStays(worlds[j - 1], actions[j - 1], accepts, id, worlds[i].db.tokens[id].secret);
    }
  }

  lemma RevokedIsDead(w: World, accepts: Validator, id: string)
    requires Inv(w, accepts) && id in w.db.tokens && w.db.tokens[id].revokedAt.Some?
    ensures Dead(w, id, w.db.tokens[id].secret)
  {
  }

  /** Once a token is revoked, at no later point of the run is it active or does its plaintext get an
      answer, at whatever time it is asked for. */
  lemma RevokedForever(worlds: seq<World>, actions: seq<Action>, accepts: Validator, i: nat, j: nat, id: string,
      now: int, r: Result<Subscription, Error>)
    requires Run(worlds, actions, accepts) && worlds[0] == Initial && i <= j < |worlds|
    requires id in worlds[i].db.tokens && worlds[i].db.tokens[id].revokedAt.Some?
    requires Answers(worlds[j].db, worlds[i].db.tokens[id].secret, now, r)
    ensures r == Err(TokenNotFound)
    ensures id in worlds[j].db.tokens ==> worlds[j].db.tokens[id].revokedAt.Some?
  {
    hide Inv, Enabled, Next, Answers;
    DeadForever(worlds, actions, accepts, i, j, id);
    DeadRefuses(worlds[j], id, worlds[i].db.tokens[id].secret, now, r);
  }
}
