/** Runs of the store: any interleaving of transactions, with a save split into reading the target,
    validating, and committing later. Every reachable store keeps linear, immutable histories. */
module StoreRuns {
  import opened Wrappers
  import opened Store

  /** A save whose source passed the validator of the target that was read, and has not committed yet. */
  datatype Ticket = Ticket(project: string, target: string, expected: string, source: seq<byte>)

  /** `used` holds every project, revision and token id and every secret drawn so far. */
  datatype World = World(db: Db, tickets: set<Ticket>, used: set<string>)

  datatype Action =
    | Creating(id: string, revisionId: string, name: string, target: string, fileName: string, source: seq<byte>,
               validation: string, now: int)
    | Validating(id: string, expected: string, source: seq<byte>)
    | Saving(ticket: Ticket, revisionId: string, validation: string, now: int)
    | Publishing(id: string, expectedCurrent: string, expectedServed: string, now: int)
    | Renaming(id: string, name: string, now: int)
    | Deleting(id: string)
    | Issuing(project: string, id: string, secret: string, name: string, expiresAt: Option<int>, now: int)
    | Updating(project: string, id: string, name: string, expiresAt: Option<int>, expectedName: string,
               expectedExpiresAt: Option<int>)
    | Revoking(project: string, id: string, now: int)
    | Purging(project: string, id: string)
    | Touching(id: string, now: int)

  type Validator = (string, seq<byte>) -> bool

  /** The identifiers an action draws; they are new. */
  function Drawn(a: Action): set<string> {
    match a
    case Creating(id, revisionId, _, _, _, _, _, _) => {id, revisionId}
    case Saving(_, revisionId, _, _) => {revisionId}
    case Issuing(_, id, secret, _, _, _) => {id, secret}
    case _ => {}
  }

  predicate Enabled(w: World, a: Action, accepts: Validator) {
    && Drawn(a) !! w.used
    && (a.Creating? ==> accepts(a.target, a.source))
    && (a.Saving? ==> a.ticket in w.tickets)
  }

  function Effect(db: Db, a: Action): Db {
    match a
    case Creating(id, revisionId, name, target, fileName, source, validation, now) =>
      Create(db, id, revisionId, name, target, fileName, source, validation, now).0
    case Validating(_, _, _) => db
    case Saving(ticket, revisionId, validation, now) =>
      Save(db, ticket.project, ticket.expected, revisionId, ticket.source, validation, now).0
    case Publishing(id, expectedCurrent, expectedServed, now) => Publish(db, id, expectedCurrent, expectedServed, now).0
    case Renaming(id, name, now) => Rename(db, id, name, now).0
    case Deleting(id) => Delete(db, id).0
    case Issuing(project, id, secret, name, expiresAt, now) =>
      CreateToken(db, project, id, secret, name, expiresAt, now).0
    case Updating(project, id, name, expiresAt, expectedName, expectedExpiresAt) =>
      UpdateToken(db, project, id, name, expiresAt, expectedName, expectedExpiresAt).0
    case Revoking(project, id, now) => RevokeToken(db, project, id, now).0
    case Purging(project, id) => PurgeToken(db, project, id).0
    case Touching(id, now) => Touch(db, id, now)
  }

  /** A save's route reads the target and validates against it before its transaction begins. */
  function Tickets(w: World, a: Action, accepts: Validator): set<Ticket> {
    match a
    case Validating(id, expected, source) =>
      if id in w.db.projects && accepts(w.db.projects[id].target, source)
      then w.tickets + {Ticket(id, w.db.projects[id].target, expected, source)} else w.tickets
    case Saving(ticket, _, _, _) => w.tickets - {ticket}
    case _ => w.tickets
  }

  function Next(w: World, a: Action, accepts: Validator): World {
    World(Effect(w.db, a), Tickets(w, a, accepts), w.used + Drawn(a))
  }

  const Initial: World := World(Db(map[], map[], map[]), {}, {})

  /** The worlds a sequence of actions goes through. */
  ghost predicate Run(worlds: seq<World>, actions: seq<Action>, accepts: Validator) {
    && |worlds| == |actions| + 1
    && forall i | 0 <= i < |actions| ::
         Enabled(worlds[i], actions[i], accepts) && worlds[i + 1] == Next(worlds[i], actions[i], accepts)
  }

  // ---- the invariant --------------------------------------------------------

  predicate OwnRevision(db: Db, project: string, id: Option<string>) {
    id.Some? && id.value in db.revisions && db.revisions[id.value].project == project
  }

  predicate PointersOk(db: Db, project: string)
    requires project in db.projects
  {
    OwnRevision(db, project, db.projects[project].current) && OwnRevision(db, project, db.projects[project].served)
  }

  /** A revision is the first, or sits on top of the one numbered one less, from which it differs. */
  predicate ChainOk(db: Db, id: string)
    requires id in db.revisions
  {
    var r := db.revisions[id];
    && 1 <= r.no
    && (r.no == 1 ==> r.parent.None?)
    && (r.no > 1 ==>
          && OwnRevision(db, r.project, r.parent)
          && var q := db.revisions[r.parent.value];
          q.no == r.no - 1 && q.source != r.source)
  }

  predicate BelowCurrent(db: Db, id: string)
    requires id in db.revisions
  {
    var r := db.revisions[id];
    && r.project in db.projects
    && OwnRevision(db, r.project, db.projects[r.project].current)
    && r.no <= db.revisions[db.projects[r.project].current.value].no
  }

  /** No two revisions of a project share a number. */
  ghost predicate NumbersUnique(revisions: map<string, Revision>) {
    forall a, b | a in revisions && b in revisions && revisions[a].project == revisions[b].project
      && revisions[a].no == revisions[b].no
      :: a == b
  }

  ghost predicate Linear(db: Db) {
    && (forall p | p in db.projects :: PointersOk(db, p))
    && (forall id | id in db.revisions :: ChainOk(db, id) && BelowCurrent(db, id))
    && NumbersUnique(db.revisions)
  }

  /** Every stored source passed the validator of its project's target. */
  ghost predicate Validated(db: Db, accepts: Validator) {
    forall id | id in db.revisions && db.revisions[id].project in db.projects ::
      accepts(db.projects[db.revisions[id].project].target, db.revisions[id].source)
  }

  ghost predicate TokensOk(db: Db) {
    && (forall id | id in db.tokens :: db.tokens[id].project in db.projects)
    && (forall a, b | a in db.tokens && b in db.tokens && db.tokens[a].secret == db.tokens[b].secret :: a == b)
  }

  /** Tickets were validated against the target their project still has, if it still exists. */
  ghost predicate TicketsOk(w: World, accepts: Validator) {
    forall t | t in w.tickets ::
      && accepts(t.target, t.source) && t.project in w.used
      && (t.project in w.db.projects ==> w.db.projects[t.project].target == t.target)
  }

  ghost predicate UsedOk(w: World) {
    && w.db.projects.Keys <= w.used && w.db.revisions.Keys <= w.used && w.db.tokens.Keys <= w.used
    && forall id | id in w.db.tokens :: w.db.tokens[id].secret in w.used
  }

  ghost predicate Inv(w: World, accepts: Validator) {
    Linear(w.db) && Validated(w.db, accepts) && TokensOk(w.db) && TicketsOk(w, accepts) && UsedOk(w)
  }

  // ---- what one transaction does to the tables ------------------------------

  /** No project's target, file name or pointers change, and no revision. */
  ghost predicate Decorated(db: Db, db': Db) {
    && db'.revisions == db.revisions && db'.projects.Keys == db.projects.Keys
    && forall p | p in db.projects ::
         && db'.projects[p].current == db.projects[p].current && db'.projects[p].served == db.projects[p].served
         && db'.projects[p].target == db.projects[p].target && db'.projects[p].fileName == db.projects[p].fileName
  }

  lemma DecoratedLinear(db: Db, db': Db)
    requires Linear(db) && Decorated(db, db')
    ensures Linear(db')
  {
    forall p | p in db'.projects
      ensures PointersOk(db', p)
    {
      assert PointersOk(db, p);
    }
    forall r | r in db'.revisions
      ensures ChainOk(db', r) && BelowCurrent(db', r)
    {
      assert ChainOk(db, r) && BelowCurrent(db, r);
    }
  }

  /** A new project with its first revision. */
  lemma BornLinear(db: Db, id: string, p: Project, revisionId: string, r: Revision)
    requires Linear(db) && id !in db.projects && revisionId !in db.revisions
    requires p.current == p.served == Some(revisionId) && r.project == id && r.parent.None? && r.no == 1
    ensures Linear(Db(db.projects[id := p], db.revisions[revisionId := r], db.tokens))
  {
    hide ChainOk, BelowCurrent, PointersOk, NumbersUnique;
    var db' := Db(db.projects[id := p], db.revisions[revisionId := r], db.tokens);
    forall q | q in db'.projects
      ensures PointersOk(db', q)
    {
      BornPointers(db, id, p, revisionId, r, q);
    }
    forall k | k in db'.revisions
      ensures ChainOk(db', k) && BelowCurrent(db', k)
    {
      BornChain(db, id, p, revisionId, r, k);
    }
    assert forall k | k in db.revisions :: db.revisions[k].project != id by {
      forall k | k in db.revisions
        ensures db.revisions[k].project != id
      {
        OwnerLives(db, k);
      }
    }
    NewNumber(db, id, revisionId, r);
  }

  lemma OwnerLives(db: Db, k: string)
    requires k in db.revisions && BelowCurrent(db, k)
    ensures db.revisions[k].project in db.projects
  {
  }

  lemma BornPointers(db: Db, id: string, p: Project, revisionId: string, r: Revision, q: string)
    requires id !in db.projects && revisionId !in db.revisions && p.current == p.served == Some(revisionId)
             && r.project == id
    requires q == id || (q in db.projects && PointersOk(db, q))
    ensures PointersOk(Db(db.projects[id := p], db.revisions[revisionId := r], db.tokens), q)
  {
  }

  lemma BornChain(db: Db, id: string, p: Project, revisionId: string, r: Revision, k: string)
    requires id !in db.projects && revisionId !in db.revisions && p.current == p.served == Some(revisionId)
    requires r.project == id && r.parent.None? && r.no == 1
    requires k == revisionId || (k in db.revisions && ChainOk(db, k) && BelowCurrent(db, k))
    ensures var db' := Db(db.projects[id := p], db.revisions[revisionId := r], db.tokens);
            ChainOk(db', k) && BelowCurrent(db', k)
  {
  }

  lemma NewNumber(db: Db, id: string, revisionId: string, revision: Revision)
    requires NumbersUnique(db.revisions) && revision.project == id && !NumberTaken(db, id, revision.no)
             && revisionId !in db.revisions
    ensures NumbersUnique(db.revisions[revisionId := revision])
  {
  }

  /** A revision on top of the current one. */
  lemma PushedLinear(db: Db, id: string, p: Project, revisionId: string, r: Revision)
    requires Linear(db) && id in db.projects && revisionId !in db.revisions && !NumberTaken(db, id, r.no)
    requires var q := db.projects[id];
             p.served == q.served && p.current == Some(revisionId) && r.project == id && r.parent == q.current
    requires OwnRevision(db, id, r.parent) && r.no == db.revisions[r.parent.value].no + 1
    requires r.source != db.revisions[r.parent.value].source
    ensures Linear(Db(db.projects[id := p], db.revisions[revisionId := r], db.tokens))
  {
    hide ChainOk, BelowCurrent, PointersOk, NumbersUnique, NumberTaken;
    var db' := Db(db.projects[id := p], db.revisions[revisionId := r], db.tokens);
    forall q | q in db'.projects
      ensures PointersOk(db', q)
    {
      PushedPointers(db, id, p, revisionId, r, q);
    }
    forall k | k in db'.revisions
      ensures ChainOk(db', k) && BelowCurrent(db', k)
    {
      if k == revisionId {
        NewTop(db, id, p, revisionId, r);
      } else {
        PushedChain(db, id, p, revisionId, r, k);
      }
    }
    NewNumber(db, id, revisionId, r);
  }

  lemma PushedPointers(db: Db, id: string, p: Project, revisionId: string, r: Revision, q: string)
    requires id in db.projects && revisionId !in db.revisions && p.served == db.projects[id].served
             && p.current == Some(revisionId)
    requires r.project == id && q in db.projects && PointersOk(db, q)
    ensures PointersOk(Db(db.projects[id := p], db.revisions[revisionId := r], db.tokens), q)
  {
  }

  lemma NewTop(db: Db, id: string, p: Project, revisionId: string, r: Revision)
    requires id in db.projects && revisionId !in db.revisions && p.current == Some(revisionId) && r.project == id
    requires OwnRevision(db, id, r.parent) && r.no == db.revisions[r.parent.value].no + 1 && ChainOk(db, r.parent.value)
    requires r.source != db.revisions[r.parent.value].source
    ensures var db' := Db(db.projects[id := p], db.revisions[revisionId := r], db.tokens);
            ChainOk(db', revisionId) && BelowCurrent(db', revisionId)
  {
  }

  lemma PushedChain(db: Db, id: string, p: Project, revisionId: string, r: Revision, k: string)
    requires id in db.projects && revisionId !in db.revisions && p.current == Some(revisionId) && r.project == id
    requires OwnRevision(db, id, db.projects[id].current) && r.no > db.revisions[db.projects[id].current.value].no
    requires k in db.revisions && ChainOk(db, k) && BelowCurrent(db, k)
    ensures var db' := Db(db.projects[id := p], db.revisions[revisionId := r], db.tokens);
            ChainOk(db', k) && BelowCurrent(db', k)
  {
  }

  /** The served pointer moves within the project. */
  lemma ServedLinear(db: Db, id: string, p: Project)
    requires Linear(db) && id in db.projects && p.current == db.projects[id].current && OwnRevision(db, id, p.served)
    ensures Linear(SetProject(db, id, p))
  {
    hide ChainOk, PointersOk, BelowCurrent, NumbersUnique;
    var db' := SetProject(db, id, p);
    forall q | q in db'.projects
      ensures PointersOk(db', q)
    {
      ServedPointers(db, id, p, q);
    }
    forall k | k in db'.revisions
      ensures ChainOk(db', k) && BelowCurrent(db', k)
    {
      ServedBelow(db, id, p, k);
      SameChain(db, db', k);
    }
  }

  lemma ServedPointers(db: Db, id: string, p: Project, q: string)
    requires id in db.projects && p.current == db.projects[id].current && OwnRevision(db, id, p.served)
    requires q in db.projects && PointersOk(db, q)
    ensures PointersOk(SetProject(db, id, p), q)
  {
  }

  lemma ServedBelow(db: Db, id: string, p: Project, k: string)
    requires id in db.projects && p.current == db.projects[id].current && k in db.revisions && BelowCurrent(db, k)
    ensures BelowCurrent(SetProject(db, id, p), k)
  {
  }

  lemma SameChain(db: Db, db': Db, k: string)
    requires k in db.revisions && ChainOk(db, k) && db'.revisions == db.revisions
    ensures ChainOk(db', k)
  {
  }

  lemma CreateLinear(db: Db, id: string, revisionId: string, name: string, target: string, fileName: string,
      source: seq<byte>, validation: string, now: int)
    requires Linear(db)
    ensures Linear(Create(db, id, revisionId, name, target, fileName, source, validation, now).0)
  {
    hide Linear, NumberTaken, FetchProject;
    if id !in db.projects && revisionId !in db.revisions {
      BornLinear(db, id, Project(name, target, fileName, Some(revisionId), Some(revisionId), validation, now),
                 revisionId, Revision(id, None, 1, source, validation, now));
    }
  }

  lemma SaveLinear(db: Db, id: string, expected: string, revisionId: string, source: seq<byte>, validation: string,
      now: int)
    requires Linear(db)
    ensures Linear(Save(db, id, expected, revisionId, source, validation, now).0)
  {
    hide Linear, NumberTaken, FetchProject, NextNumber, OwnRevision;
    if id in db.projects && db.projects[id].current.Some? && db.projects[id].current.value in db.revisions {
      var p := db.projects[id];
      var current := p.current.value;
      ServedOf(db, id);
      if db.revisions[current].source == source {
        ServedLinear(db, id, p.(validation := validation, updatedAt := now));
      } else {
        var no := NextNumber(db.revisions[current].no);
        if revisionId !in db.revisions && !NumberTaken(db, id, no) {
          NextIsNew(db, id, current);
          PushedLinear(db, id, p.(current := Some(revisionId), validation := validation, updatedAt := now), revisionId,
                       Revision(id, Some(current), no, source, validation, now));
        }
      }
    }
  }

  lemma ServedOf(db: Db, id: string)
    requires Linear(db) && id in db.projects
    ensures OwnRevision(db, id, db.projects[id].served) && OwnRevision(db, id, db.projects[id].current)
  {
    assert PointersOk(db, id);
  }

  /** At the largest number the saturated successor is taken, so the insert fails instead. */
  lemma NextIsNew(db: Db, id: string, current: string)
    requires current in db.revisions && db.revisions[current].project == id
    requires !NumberTaken(db, id, NextNumber(db.revisions[current].no))
    ensures NextNumber(db.revisions[current].no) == db.revisions[current].no + 1
  {
  }

  lemma PublishLinear(db: Db, id: string, expectedCurrent: string, expectedServed: string, now: int)
    requires Linear(db)
    ensures Linear(Publish(db, id, expectedCurrent, expectedServed, now).0)
  {
    hide Linear, FetchProject, OwnRevision;
    if id in db.projects {
      ServedOf(db, id);
      var p := db.projects[id];
      ServedLinear(db, id, p.(served := p.current, updatedAt := now));
    }
  }

  lemma DeleteLinear(db: Db, id: string)
    requires Linear(db)
    ensures Linear(Delete(db, id).0)
  {
    var db' := Delete(db, id).0;
    DeleteRows(db, id);
    hide ChainOk, BelowCurrent, PointersOk, Delete;
    forall p | p in db'.projects
      ensures PointersOk(db', p)
    {
      DeletePointers(db, id, p);
    }
    forall r | r in db'.revisions
      ensures ChainOk(db', r) && BelowCurrent(db', r)
    {
      DeleteChain(db, id, r);
    }
  }

  /** A delete leaves the rows of all other projects. */
  lemma DeleteRows(db: Db, id: string)
    ensures var db' := Delete(db, id).0;
            && (forall p :: p in db'.projects <==> p in db.projects && p != id)
            && (forall p | p in db'.projects :: db'.projects[p] == db.projects[p])
            && (forall r | r in db'.revisions :: r in db.revisions && db'.revisions[r] == db.revisions[r])
            && (forall r | r in db.revisions && (id in db.projects ==> db.revisions[r].project != id) ::
                r in db'.revisions)
            && (id in db.projects ==> forall r | r in db'.revisions :: db'.revisions[r].project != id)
  {
  }

  lemma DeletePointers(db: Db, id: string, p: string)
    requires p in Delete(db, id).0.projects && (p in db.projects ==> PointersOk(db, p))
    ensures PointersOk(Delete(db, id).0, p)
  {
    DeleteRows(db, id);
    hide Delete;
  }

  lemma DeleteChain(db: Db, id: string, r: string)
    requires r in Delete(db, id).0.revisions && (r in db.revisions ==> ChainOk(db, r) && BelowCurrent(db, r))
    ensures ChainOk(Delete(db, id).0, r) && BelowCurrent(Delete(db, id).0, r)
  {
    DeleteRows(db, id);
    hide Delete;
  }

  /** The actions that neither add nor remove projects or revisions nor move a pointer. */
  predicate OnlyDecorates(a: Action) {
    !a.Creating? && !a.Saving? && !a.Publishing? && !a.Deleting?
  }

  lemma RenameDecorates(db: Db, id: string, name: string, now: int)
    ensures Decorated(db, Rename(db, id, name, now).0)
  {
    hide FetchProject;
  }

  /** The transactions on tokens and a read by one leave the other two tables alone. */
  lemma TokensDecorate(db: Db, a: Action)
    requires OnlyDecorates(a) && !a.Renaming?
    ensures Effect(db, a).projects == db.projects && Effect(db, a).revisions == db.revisions
  {
  }

  lemma EffectDecorates(db: Db, a: Action)
    requires OnlyDecorates(a)
    ensures Decorated(db, Effect(db, a))
  {
    hide Create, Save, Publish, Delete, Rename, CreateToken, UpdateToken, RevokeToken, PurgeToken, Touch;
    if a.Renaming? {
      RenameDecorates(db, a.id, a.name, a.now);
    } else {
      TokensDecorate(db, a);
    }
  }

  lemma EffectLinear(db: Db, a: Action)
    requires Linear(db)
    ensures Linear(Effect(db, a))
  {
    hide Linear, Create, Save, Publish, Delete, Rename, CreateToken, UpdateToken, RevokeToken, PurgeToken, Touch,
      Decorated;
    match a
    case Creating(id, revisionId, name, target, fileName, source, validation, now) =>
      CreateLinear(db, id, revisionId, name, target, fileName, source, validation, now);
    case Saving(ticket, revisionId, validation, now) =>
      SaveLinear(db, ticket.project, ticket.expected, revisionId, ticket.source, validation, now);
    case Publishing(id, expectedCurrent, expectedServed, now) =>
      PublishLinear(db, id, expectedCurrent, expectedServed, now);
    case Deleting(id) => DeleteLinear(db, id);
    case _ =>
      EffectDecorates(db, a);
      DecoratedLinear(db, Effect(db, a));
  }

  // ---- immutable history ----------------------------------------------------

  /** How any transaction relates the tables before and after: a project keeps its target and its file
      name, and its revisions are all still there unless the project is gone; new rows carry drawn ids. */
  ghost predicate Evolves(db: Db, db': Db, drawn: set<string>) {
    && db'.projects.Keys <= db.projects.Keys + drawn && db'.revisions.Keys <= db.revisions.Keys + drawn
    && (forall p | p in db.projects && p in db'.projects ::
          db'.projects[p].target == db.projects[p].target && db'.projects[p].fileName == db.projects[p].fileName)
    && (forall r | r in db.revisions && r in db'.revisions :: db'.revisions[r] == db.revisions[r])
    && (forall r | r in db.revisions && r !in db'.revisions :: db.revisions[r].project !in db'.projects)
    && (forall r | r in db'.revisions && r !in db.revisions :: db'.revisions[r].project in db'.projects)
  }

  lemma DeleteEvolves(db: Db, id: string)
    ensures Evolves(db, Delete(db, id).0, {})
  {
  }

  /** A save changes one project's row, whose target and file name stay, and may add one revision of it. */
  lemma SaveShape(db: Db, id: string, expected: string, revisionId: string, source: seq<byte>, validation: string,
      now: int)
    ensures var db' := Save(db, id, expected, revisionId, source, validation, now).0;
            db' == db
            || (id in db.projects && id in db'.projects && db'.projects == db.projects[id := db'.projects[id]]
                && db'.projects[id].target == db.projects[id].target
                   && db'.projects[id].fileName == db.projects[id].fileName
                && (db'.revisions == db.revisions
                    || (revisionId !in db.revisions && revisionId in db'.revisions
                        && db'.revisions == db.revisions[revisionId := db'.revisions[revisionId]]
                        && db'.revisions[revisionId].project == id)))
  {
    hide NumberTaken, FetchProject, NextNumber;
  }

  lemma SaveEvolves(db: Db, id: string, expected: string, revisionId: string, source: seq<byte>, validation: string,
      now: int)
    ensures Evolves(db, Save(db, id, expected, revisionId, source, validation, now).0, {revisionId})
  {
    hide Save;
    SaveShape(db, id, expected, revisionId, source, validation, now);
  }

  lemma CreateEvolves(db: Db, id: string, revisionId: string, name: string, target: string, fileName: string,
      source: seq<byte>, validation: string, now: int)
    ensures Evolves(db, Create(db, id, revisionId, name, target, fileName, source, validation, now).0, {id, revisionId})
  {
    hide NumberTaken, FetchProject;
  }

  lemma PublishShape(db: Db, id: string, expectedCurrent: string, expectedServed: string, now: int)
    ensures var db' := Publish(db, id, expectedCurrent, expectedServed, now).0;
            db' == db
            || (id in db.projects && id in db'.projects && db'.revisions == db.revisions
                && db'.projects == db.projects[id := db'.projects[id]]
                && db'.projects[id].target == db.projects[id].target
                   && db'.projects[id].fileName == db.projects[id].fileName)
  {
    hide FetchProject;
  }

  lemma PublishEvolves(db: Db, id: string, expectedCurrent: string, expectedServed: string, now: int)
    ensures Evolves(db, Publish(db, id, expectedCurrent, expectedServed, now).0, {})
  {
    hide Publish;
    PublishShape(db, id, expectedCurrent, expectedServed, now);
  }

  lemma DecoratedEvolves(db: Db, db': Db, drawn: set<string>)
    requires Decorated(db, db')
    ensures Evolves(db, db', drawn)
  {
  }

  lemma EffectEvolves(db: Db, a: Action)
    requires Drawn(a) !! db.projects.Keys && Drawn(a) !! db.revisions.Keys
    ensures Evolves(db, Effect(db, a), Drawn(a))
  {
    hide Create, Save, Delete, Publish, Rename, CreateToken, UpdateToken, RevokeToken, PurgeToken, Touch, Evolves,
      Decorated;
    match a
    case Creating(id, revisionId, name, target, fileName, source, validation, now) =>
      CreateEvolves(db, id, revisionId, name, target, fileName, source, validation, now);
    case Saving(ticket, revisionId, validation, now) =>
      SaveEvolves(db, ticket.project, ticket.expected, revisionId, ticket.source, validation, now);
    case Deleting(id) => DeleteEvolves(db, id);
    case Publishing(id, expectedCurrent, expectedServed, now) =>
      PublishEvolves(db, id, expectedCurrent, expectedServed, now);
    case _ =>
      EffectDecorates(db, a);
      DecoratedEvolves(db, Effect(db, a), Drawn(a));
  }

  lemma EffectValidated(w: World, a: Action, accepts: Validator)
    requires Inv(w, accepts) && Enabled(w, a, accepts)
    ensures Validated(Effect(w.db, a), accepts)
  {
    hide Linear, TokensOk, Effect, Drawn, Evolves;
    var db, db' := w.db, Effect(w.db, a);
    assert Evolves(db, db', Drawn(a)) by {
      EffectEvolves(db, a);
    }
    forall id | id in db'.revisions && db'.revisions[id].project in db'.projects
      ensures accepts(db'.projects[db'.revisions[id].project].target, db'.revisions[id].source)
    {
      if id in db.revisions {
        OldStaysValid(db, db', Drawn(a), id, accepts);
      } else {
        NewIsValid(w, a, id, accepts);
      }
    }
  }

  lemma OldStaysValid(db: Db, db': Db, drawn: set<string>, id: string, accepts: Validator)
    requires Linear(db) && Validated(db, accepts) && Evolves(db, db', drawn)
    requires id in db.revisions && id in db'.revisions && db'.revisions[id].project in db'.projects
    ensures accepts(db'.projects[db'.revisions[id].project].target, db'.revisions[id].source)
  {
    assert BelowCurrent(db, id);
  }

  /** A new row comes from a create or a save, both of a validated source. */
  lemma NewIsValid(w: World, a: Action, id: string, accepts: Validator)
    requires TicketsOk(w, accepts) && Enabled(w, a, accepts)
    requires var db' := Effect(w.db, a);
             id in db'.revisions && id !in w.db.revisions && db'.revisions[id].project in db'.projects
    ensures var db' := Effect(w.db, a);
            accepts(db'.projects[db'.revisions[id].project].target, db'.revisions[id].source)
  {
    hide NumberTaken, Delete, CreateToken, UpdateToken, RevokeToken, PurgeToken;
    NewRows(w.db, a, id);
  }

  lemma NewRows(db: Db, a: Action, id: string)
    requires id in Effect(db, a).revisions && id !in db.revisions
    ensures a.Creating? || a.Saving?
  {
  }
}
