/** What a subscription answers, traced back through the run to the requests that handed it in: the bytes to a create
    or a save, the file name to the create, the expiry to the token's last change, silence to a revoke. */
module StoreServing {
  import opened Wrappers
  import Utf8
  import opened Store
  import opened StoreRuns
  import opened StoreSafety
  import opened StoreOutcomes

  // ---- where revisions and projects come from -------------------------------

  /** The action handed in the bytes of the revision. */
  predicate Wrote(a: Action, project: string, id: string, source: seq<byte>) {
    || (a.Creating? && a.id == project && a.revisionId == id && a.source == source)
    || (a.Saving? && a.ticket.project == project && a.revisionId == id && a.ticket.source == source)
  }

  predicate Founded(a: Action, project: string, target: string, fileName: string) {
    a.Creating? && a.id == project && a.target == target && a.fileName == fileName
  }

  lemma NewRevision(db: Db, a: Action, id: string)
    requires Linear(db) && id in Effect(db, a).revisions && id !in db.revisions
    ensures var row := Effect(db, a).revisions[id]; Wrote(a, row.project, id, row.source)
  {
    hide Linear, Create, Save, Publish, Delete, Rename, CreateToken, UpdateToken, RevokeToken, PurgeToken, Touch;
    match a
    case Creating(p, revisionId, name, target, fileName, source, validation, now) =>
      CreateRow(db, p, revisionId, name, target, fileName, source, validation, now);
    case Saving(ticket, revisionId, validation, now) =>
      SaveRow(db, ticket.project, ticket.expected, revisionId, ticket.source, validation, now);
    case Publishing(p, expectedCurrent, expectedServed, now) =>
      PublishShape(db, p, expectedCurrent, expectedServed, now);
    case Deleting(p) => DeleteRows(db, p);
    case _ =>
      hide Effect;
      EffectDecorates(db, a);
  }

  lemma CreateRow(db: Db, id: string, revisionId: string, name: string, target: string, fileName: string,
      source: seq<byte>, validation: string, now: int)
    ensures var db' := Create(db, id, revisionId, name, target, fileName, source, validation, now).0;
            && (forall k | k in db'.revisions && k !in db.revisions ::
                  k == revisionId && db'.revisions[k].project == id && db'.revisions[k].source == source)
            && forall p | p in db'.projects && p !in db.projects ::
                 p == id && db'.projects[p].target == target && db'.projects[p].fileName == fileName
  {
    hide NumberTaken, FetchProject;
  }

  lemma SaveRow(db: Db, id: string, expected: string, revisionId: string, source: seq<byte>, validation: string,
      now: int)
    requires Linear(db)
    ensures var db' := Save(db, id, expected, revisionId, source, validation, now).0;
            forall k | k in db'.revisions && k !in db.revisions ::
              k == revisionId && db'.revisions[k].project == id && db'.revisions[k].source == source
  {
    hide Linear, NumberTaken, FetchProject, NextNumber;
  }

  lemma NewProject(db: Db, a: Action, p: string)
    requires p in Effect(db, a).projects && p !in db.projects
    ensures var row := Effect(db, a).projects[p]; Founded(a, p, row.target, row.fileName)
  {
    hide NumberTaken, FetchProject;
  }

  /** Every stored revision holds the bytes that a create or a save earlier in the run handed in under its id. */
  lemma {:induction false} RevisionHandedIn(worlds: seq<World>, actions: seq<Action>, accepts: Validator, i: nat,
      id: string)
    requires Run(worlds, actions, accepts) && worlds[0] == Initial && i < |worlds| && id in worlds[i].db.revisions
    ensures var row := worlds[i].db.revisions[id];
            exists k | 0 <= k < i :: Wrote(actions[k], row.project, id, row.source)
  {
    hide Inv, Enabled, Effect, Drawn, Tickets, Wrote, Linear, Evolves;
    assert i > 0;
    var w, a := worlds[i - 1], actions[i - 1];
    StepEvolves(worlds, actions, accepts, i - 1);
    if id in w.db.revisions {
      RevisionHandedIn(worlds, actions, accepts, i - 1, id);
      SameRevision(w.db, worlds[i].db, Drawn(a), id);
    } else {
      NewRevision(w.db, a, id);
    }
  }

  lemma SameRevision(db: Db, db': Db, drawn: set<string>, id: string)
    requires Evolves(db, db', drawn) && id in db.revisions && id in db'.revisions
    ensures db'.revisions[id] == db.revisions[id]
  {
  }

  lemma SameProject(db: Db, db': Db, drawn: set<string>, p: string)
    requires Evolves(db, db', drawn) && p in db.projects && p in db'.projects
    ensures db'.projects[p].target == db.projects[p].target && db'.projects[p].fileName == db.projects[p].fileName
  {
  }

  lemma StepEvolves(worlds: seq<World>, actions: seq<Action>, accepts: Validator, i: nat)
    requires Run(worlds, actions, accepts) && worlds[0] == Initial && i < |actions|
    ensures Linear(worlds[i].db) && worlds[i + 1].db == Effect(worlds[i].db, actions[i])
    ensures Evolves(worlds[i].db, worlds[i + 1].db, Drawn(actions[i]))
  {
    hide Linear, Validated, TokensOk, TicketsOk, Effect, Drawn, Evolves, Tickets;
    RunKeepsInv(worlds, actions, accepts, i);
    EffectEvolves(worlds[i].db, actions[i]);
  }

  /** And every project keeps the target and the file name that its create gave. */
  lemma {:induction false} ProjectFounded(worlds: seq<World>, actions: seq<Action>, accepts: Validator, i: nat,
      p: string)
    requires Run(worlds, actions, accepts) && worlds[0] == Initial && i < |worlds| && p in worlds[i].db.projects
    ensures var row := worlds[i].db.projects[p];
            exists k | 0 <= k < i :: Founded(actions[k], p, row.target, row.fileName)
  {
    hide Inv, Enabled, Effect, Drawn, Tickets, Founded, Linear, Evolves;
    assert i > 0;
    var w, a := worlds[i - 1], actions[i - 1];
    StepEvolves(worlds, actions, accepts, i - 1);
    if p in w.db.projects {
      ProjectFounded(worlds, actions, accepts, i - 1, p);
      SameProject(w.db, worlds[i].db, Drawn(a), p);
    } else {
      NewProject(w.db, a, p);
    }
  }

  /** There is one such action: no id is drawn twice. */
  lemma DrawnOnce(worlds: seq<World>, actions: seq<Action>, accepts: Validator, j: nat, k: nat)
    requires Run(worlds, actions, accepts) && j < k < |actions|
    ensures Drawn(actions[j]) !! Drawn(actions[k])
  {
    hide Drawn, Effect, Tickets;
    UsedGrows(worlds, actions, accepts, j + 1, k);
  }

  lemma {:induction false} UsedGrows(worlds: seq<World>, actions: seq<Action>, accepts: Validator, j: nat, k: nat)
    requires Run(worlds, actions, accepts) && j <= k < |worlds|
    ensures worlds[j].used <= worlds[k].used
    decreases k
  {
    hide Drawn, Effect, Tickets, Enabled;
    if j < k {
      UsedGrows(worlds, actions, accepts, j, k - 1);
    }
  }

  // ---- what is served -------------------------------------------------------

  predicate Expired(t: Token, now: int) {
    match t.expiresAt
    case None => false
    case Some(end) => end <= now
  }

  /** The token of this plaintext, neither revoked nor expired. */
  predicate LiveToken(db: Db, id: string, plaintext: string, now: int) {
    id in db.tokens && db.tokens[id].secret == plaintext && db.tokens[id].revokedAt.None?
      && !Expired(db.tokens[id], now)
  }

  /** A token of a reachable store serves exactly while it is live. */
  lemma LiveServes(db: Db, id: string, plaintext: string, now: int)
    requires Linear(db) && TokensOk(db)
    ensures Serves(db, id, plaintext, now) <==> LiveToken(db, id, plaintext, now)
  {
    hide Linear;
    if id in db.tokens {
      ServedOf(db, db.tokens[id].project);
    }
  }

  /** The bytes and the file name that the run handed in for what project `p` serves at `i`. */
  ghost predicate HandedIn(db: Db, actions: seq<Action>, i: nat, p: string, s: Subscription)
  {
    && i <= |actions| && p in db.projects && db.projects[p].served.Some?
    && var served := db.projects[p].served.value;
    && (exists k | 0 <= k < i :: Wrote(actions[k], p, served, s.source))
    && (exists k | 0 <= k < i :: MadeServed(actions[k], p, served))
    && exists k | 0 <= k < i :: Founded(actions[k], p, db.projects[p].target, s.fileName)
  }

  /** THE BYTES THAT WERE PUBLISHED. At every point of every run a plaintext is answered exactly while it has a live
      token, with the bytes that the create or the save of the served revision handed in, a revision that a create or a
      publish named, and with the file name of the create. */
  lemma ServesWhatWasHandedIn(worlds: seq<World>, actions: seq<Action>, accepts: Validator, i: nat, plaintext: string,
      now: int, r: Result<Subscription, Error>)
    requires Run(worlds, actions, accepts) && worlds[0] == Initial && i < |worlds|
    requires Answers(worlds[i].db, plaintext, now, r)
    ensures r.Ok? <==> |Utf8.Encode(plaintext)| <= 256 && exists id :: LiveToken(worlds[i].db, id, plaintext, now)
    ensures r.Err? ==> r.error == TokenNotFound
    ensures r.Ok? ==> forall id | LiveToken(worlds[i].db, id, plaintext, now) ::
                        HandedIn(worlds[i].db, actions, i, worlds[i].db.tokens[id].project, r.value)
  {
    hide Linear, TokensOk, HandedIn, Run, LiveToken, Utf8.Encode, Validated, TicketsOk, UsedOk;
    var db := worlds[i].db;
    RunKeepsInv(worlds, actions, accepts, i);
    forall id
      ensures Serves(db, id, plaintext, now) <==> LiveToken(db, id, plaintext, now)
    {
      LiveServes(db, id, plaintext, now);
    }
    if r.Ok? {
      forall id | LiveToken(db, id, plaintext, now)
        ensures HandedIn(db, actions, i, db.tokens[id].project, r.value)
      {
        OnlyAnswer(db, plaintext, now, id, r.value);
        ServedHandedIn(worlds, actions, accepts, i, id);
      }
    }
  }

  lemma OnlyAnswer(db: Db, plaintext: string, now: int, id: string, s: Subscription)
    requires TokensOk(db) && Serves(db, id, plaintext, now) && Answers(db, plaintext, now, Ok(s))
    ensures s == ServedBy(db, id)
  {
    hide ServedBy;
    AnswerUnique(db, plaintext, now, Ok(s), Ok(ServedBy(db, id)));
  }

  lemma ServedHandedIn(worlds: seq<World>, actions: seq<Action>, accepts: Validator, i: nat, id: string)
    requires Run(worlds, actions, accepts) && worlds[0] == Initial && i < |worlds|
    requires var db := worlds[i].db;
             && id in db.tokens && db.tokens[id].project in db.projects
             && var p := db.projects[db.tokens[id].project]; p.served.Some? && p.served.value in db.revisions
    ensures HandedIn(worlds[i].db, actions, i, worlds[i].db.tokens[id].project, ServedBy(worlds[i].db, id))
  {
    var db := worlds[i].db;
    var p := db.tokens[id].project;
    RunKeepsInv(worlds, actions, accepts, i);
    ServedOf(db, p);
    hide Run, Inv, Wrote, MadeServed, Founded;
    RevisionHandedIn(worlds, actions, accepts, i, db.projects[p].served.value);
    ServedWasPublished(worlds, actions, accepts, i, p);
    ProjectFounded(worlds, actions, accepts, i, p);
  }

  // ---- the life of a token --------------------------------------------------

  /** The action issued the token. */
  predicate Issued(db: Db, a: Action, id: string) {
    a.Issuing? && a.id == id && CreateToken(db, a.project, a.id, a.secret, a.name, a.expiresAt, a.now).1.Ok?
  }

  predicate Updated(db: Db, a: Action, id: string) {
    && a.Updating? && a.id == id
    && UpdateToken(db, a.project, a.id, a.name, a.expiresAt, a.expectedName, a.expectedExpiresAt).1.Ok?
  }

  predicate Revoked(db: Db, a: Action, id: string) {
    a.Revoking? && a.id == id && RevokeToken(db, a.project, a.id, a.now).1.Ok?
  }

  /** The last action before `i` that set the token's name and expiry. */
  ghost predicate LastSet(worlds: seq<World>, actions: seq<Action>, i: nat, k: nat, id: string)
    requires i < |worlds| && |worlds| == |actions| + 1
  {
    && k < i && (Issued(worlds[k].db, actions[k], id) || Updated(worlds[k].db, actions[k], id))
    && forall m | k < m < i :: !Issued(worlds[m].db, actions[m], id) && !Updated(worlds[m].db, actions[m], id)
  }

  /** The row of a token after an action, if it still has one. */
  lemma TokenStep(db: Db, a: Action, id: string)
    requires id in Effect(db, a).tokens
    ensures var t' := Effect(db, a).tokens[id];
            if Issued(db, a, id) then
              && t'.project == a.project && t'.secret == a.secret && t'.name == a.name && t'.expiresAt == a.expiresAt
              && t'.revokedAt.None?
            else
              && id in db.tokens
              && var t := db.tokens[id];
              && t'.project == t.project && t'.secret == t.secret
              && (if Updated(db, a, id) then t'.name == a.name && t'.expiresAt == a.expiresAt
                  else t'.name == t.name && t'.expiresAt == t.expiresAt)
              && t'.revokedAt == if Revoked(db, a, id) then Some(a.now) else t.revokedAt
  {
    hide Create, Save, Publish, Delete, Rename, CreateToken, UpdateToken, RevokeToken, PurgeToken, Touch, TokensBut,
      ActiveToken;
    match a
    case Issuing(project, other, secret, name, expiresAt, now) =>
      IssueSucceeds(db, project, other, secret, name, expiresAt, now);
      OtherToken(db, Effect(db, a), other, id);
    case Updating(project, other, name, expiresAt, expectedName, expectedExpiresAt) =>
      UpdateWrites(db, project, other, name, expiresAt, expectedName, expectedExpiresAt);
      UpdateTokenSucceeds(db, project, other, name, expiresAt, expectedName, expectedExpiresAt);
      OtherToken(db, Effect(db, a), other, id);
    case Revoking(project, other, now) =>
      RevokeSucceeds(db, project, other, now);
      OtherToken(db, Effect(db, a), other, id);
    case Purging(project, other) => PurgeSucceeds(db, project, other);
    case Touching(other, now) =>
      if other in db.tokens {
        TouchWrites(db, other, now);
      } else {
        NothingTouched(db, other, now);
      }
      OtherToken(db, Effect(db, a), other, id);
    case Deleting(p) => DeleteLeaves(db, p);
    case _ => TokensKept(db, a);
  }

  lemma NothingTouched(db: Db, id: string, now: int)
    requires id !in db.tokens
    ensures Touch(db, id, now) == db
  {
  }

  lemma OtherToken(db: Db, db': Db, other: string, id: string)
    requires (db' == db || TokensBut(db, db', other)) && id in db'.tokens
    ensures db' == db || id != other ==> id in db.tokens && db'.tokens[id] == db.tokens[id]
  {
  }

  lemma TokensKept(db: Db, a: Action)
    requires a.Creating? || a.Validating? || a.Saving? || a.Publishing? || a.Renaming?
    ensures Effect(db, a).tokens == db.tokens
  {
    hide NumberTaken, FetchProject, NextNumber;
  }

  /** Nothing is issued under an id that a token once had. */
  lemma NeverIssuedAgain(worlds: seq<World>, actions: seq<Action>, accepts: Validator, m: nat, i: nat, id: string)
    requires Run(worlds, actions, accepts) && worlds[0] == Initial && m <= i < |actions| && id in worlds[m].db.tokens
    ensures !Issued(worlds[i].db, actions[i], id)
  {
    hide Linear, Validated, TokensOk, TicketsOk, Effect, Tickets, CreateToken;
    RunKeepsInv(worlds, actions, accepts, m);
    UsedGrows(worlds, actions, accepts, m, i);
  }

  /** The issue that a token comes from. */
  ghost predicate FromIssue(worlds: seq<World>, actions: seq<Action>, i: nat, id: string, t: Token)
    requires i < |worlds| && |worlds| == |actions| + 1
  {
    exists k | 0 <= k < i :: Issued(worlds[k].db, actions[k], id) && actions[k].project == t.project
                             && actions[k].secret == t.secret
  }

  /** The last request that named it and set its expiry. */
  ghost predicate FromLast(worlds: seq<World>, actions: seq<Action>, i: nat, id: string, t: Token)
    requires i < |worlds| && |worlds| == |actions| + 1
  {
    exists k: nat :: LastSet(worlds, actions, i, k, id) && actions[k].name == t.name
                     && actions[k].expiresAt == t.expiresAt
  }

  /** Some revoke of it has succeeded. */
  ghost predicate WasRevoked(worlds: seq<World>, actions: seq<Action>, i: nat, id: string)
    requires i < |worlds| && |worlds| == |actions| + 1
  {
    exists k | 0 <= k < i :: Revoked(worlds[k].db, actions[k], id)
  }

  ghost predicate Accounted(worlds: seq<World>, actions: seq<Action>, i: nat, id: string)
    requires i < |worlds| && |worlds| == |actions| + 1 && id in worlds[i].db.tokens
  {
    var t := worlds[i].db.tokens[id];
    && FromIssue(worlds, actions, i, id, t) && FromLast(worlds, actions, i, id, t)
    && (t.revokedAt.Some? <==> WasRevoked(worlds, actions, i, id))
  }

  /** EVERY COLUMN OF A TOKEN IS ACCOUNTED FOR. At every point of every run a token has the project and the secret of
      its issue and the name and the expiry of the last successful request that set them, and is revoked exactly when
      a revoke of it has succeeded. */
  lemma {:induction false} TokenAccounted(worlds: seq<World>, actions: seq<Action>, accepts: Validator, i: nat,
      id: string)
    requires Run(worlds, actions, accepts) && worlds[0] == Initial && i < |worlds| && id in worlds[i].db.tokens
    ensures Accounted(worlds, actions, i, id)
  {
    hide Enabled, Effect, Drawn, Tickets, Issued, Updated, Revoked;
    assert i > 0;
    var w, a := worlds[i - 1], actions[i - 1];
    TokenStep(w.db, a, id);
    NotBoth(w.db, a, id);
    if Issued(w.db, a, id) {
      FirstAccount(worlds, actions, accepts, i, id);
    } else {
      TokenAccounted(worlds, actions, accepts, i - 1, id);
      NextAccount(worlds, actions, i, id);
    }
  }

  lemma NotBoth(db: Db, a: Action, id: string)
    ensures Issued(db, a, id) ==> !Updated(db, a, id) && !Revoked(db, a, id) && a.Issuing?
    ensures Updated(db, a, id) ==> !Revoked(db, a, id) && a.Updating?
    ensures Revoked(db, a, id) ==> a.Revoking? && id in db.tokens
  {
    hide CreateToken, UpdateToken;
  }

  lemma FirstAccount(worlds: seq<World>, actions: seq<Action>, accepts: Validator, i: nat, id: string)
    requires Run(worlds, actions, accepts) && worlds[0] == Initial && 0 < i < |worlds|
    requires id in worlds[i].db.tokens
    requires var (w, a, t) := (worlds[i - 1], actions[i - 1], worlds[i].db.tokens[id]);
             && Issued(w.db, a, id) && a.Issuing? && t.project == a.project && t.secret == a.secret && t.name == a.name
             && t.expiresAt == a.expiresAt && t.revokedAt.None?
    ensures Accounted(worlds, actions, i, id)
  {
    hide Enabled, Next, Issued, Updated, Revoked;
    assert LastSet(worlds, actions, i, i - 1, id);
    forall k | 0 <= k < i
      ensures !Revoked(worlds[k].db, actions[k], id)
    {
      NotBoth(worlds[k].db, actions[k], id);
      if Revoked(worlds[k].db, actions[k], id) {
        NeverIssuedAgain(worlds, actions, accepts, k, i - 1, id);
      }
    }
  }

  lemma NextIssue(worlds: seq<World>, actions: seq<Action>, i: nat, id: string, t: Token, t': Token)
    requires 0 < i < |worlds| && |worlds| == |actions| + 1 && FromIssue(worlds, actions, i - 1, id, t)
    requires t'.project == t.project && t'.secret == t.secret
    ensures FromIssue(worlds, actions, i, id, t')
  {
    hide CreateToken;
    var k :| 0 <= k < i - 1 && Issued(worlds[k].db, actions[k], id) && actions[k].project == t.project
             && actions[k].secret == t.secret;
    assert Issued(worlds[k].db, actions[k], id);
  }

  lemma NextSet(worlds: seq<World>, actions: seq<Action>, i: nat, id: string, t: Token, t': Token)
    requires 0 < i < |worlds| && |worlds| == |actions| + 1 && FromLast(worlds, actions, i - 1, id, t)
    requires var (db, a) := (worlds[i - 1].db, actions[i - 1]);
             && !Issued(db, a, id) && (Updated(db, a, id) ==> a.Updating?)
             && if Updated(db, a, id) then t'.name == a.name && t'.expiresAt == a.expiresAt
                else t'.name == t.name && t'.expiresAt == t.expiresAt
    ensures FromLast(worlds, actions, i, id, t')
  {
    hide CreateToken, UpdateToken;
    if Updated(worlds[i - 1].db, actions[i - 1], id) {
      assert LastSet(worlds, actions, i, i - 1, id);
    } else {
      var k: nat :| LastSet(worlds, actions, i - 1, k, id) && actions[k].name == t.name
                    && actions[k].expiresAt == t.expiresAt;
      hide Issued, Updated;
      assert LastSet(worlds, actions, i, k, id);
    }
  }

  lemma NextRevoked(worlds: seq<World>, actions: seq<Action>, i: nat, id: string)
    requires 0 < i < |worlds| && |worlds| == |actions| + 1
    ensures WasRevoked(worlds, actions, i, id)
            <==> WasRevoked(worlds, actions, i - 1, id) || Revoked(worlds[i - 1].db, actions[i - 1], id)
  {
    hide Revoked;
    if Revoked(worlds[i - 1].db, actions[i - 1], id) {
      assert Revoked(worlds[i - 1].db, actions[i - 1], id);
    }
  }

  lemma NextAccount(worlds: seq<World>, actions: seq<Action>, i: nat, id: string)
    requires 0 < i < |worlds| && |worlds| == |actions| + 1
    requires id in worlds[i].db.tokens && id in worlds[i - 1].db.tokens && Accounted(worlds, actions, i - 1, id)
    requires var (w, a) := (worlds[i - 1], actions[i - 1]);
             var (t, t') := (w.db.tokens[id], worlds[i].db.tokens[id]);
             && !Issued(w.db, a, id) && (Updated(w.db, a, id) ==> a.Updating?) && (Revoked(w.db, a, id) ==> a.Revoking?)
             && t'.project == t.project && t'.secret == t.secret
             && (if Updated(w.db, a, id) then t'.name == a.name && t'.expiresAt == a.expiresAt
                 else t'.name == t.name && t'.expiresAt == t.expiresAt)
             && t'.revokedAt == if Revoked(w.db, a, id) then Some(a.now) else t.revokedAt
    ensures Accounted(worlds, actions, i, id)
  {
    hide Issued, Updated, Revoked, FromIssue, FromLast, WasRevoked;
    var t, t' := worlds[i - 1].db.tokens[id], worlds[i].db.tokens[id];
    NextIssue(worlds, actions, i, id, t, t');
    NextSet(worlds, actions, i, id, t, t');
    NextRevoked(worlds, actions, i, id);
  }

  /** A REVOKE SILENCES THE TOKEN. Whenever a revoke succeeds, at every later point of the run the token's plaintext is
      answered with "not found" alone, whatever the time, and the token is not active; no other token is touched. */
  lemma RevokeSilences(worlds: seq<World>, actions: seq<Action>, accepts: Validator, i: nat, j: nat, id: string,
      now: int, r: Result<Subscription, Error>)
    requires Run(worlds, actions, accepts) && worlds[0] == Initial && i < j < |worlds|
    requires Revoked(worlds[i].db, actions[i], id)
    requires id in worlds[i].db.tokens ==> Answers(worlds[j].db, worlds[i].db.tokens[id].secret, now, r)
    ensures id in worlds[i].db.tokens && r == Err(TokenNotFound)
    ensures forall p :: !ActiveToken(worlds[j].db, p, id)
    ensures TokensBut(worlds[i].db, worlds[i + 1].db, id)
  {
    hide Enabled, Next, Answers, TokensBut, RevokeToken;
    RevokeEffect(worlds, actions, accepts, i, id);
    RevokedForever(worlds, actions, accepts, i + 1, j, id, now, r);
  }

  lemma RevokeEffect(worlds: seq<World>, actions: seq<Action>, accepts: Validator, i: nat, id: string)
    requires Run(worlds, actions, accepts) && i < |actions| && Revoked(worlds[i].db, actions[i], id)
    ensures var (db, db') := (worlds[i].db, worlds[i + 1].db);
            && id in db.tokens && id in db'.tokens && TokensBut(db, db', id)
            && db'.tokens[id].revokedAt.Some? && db'.tokens[id].secret == db.tokens[id].secret
  {
    hide Enabled, Tickets, Drawn, RevokeToken;
    var a := actions[i];
    RevokeSucceeds(worlds[i].db, a.project, id, a.now);
  }
}
