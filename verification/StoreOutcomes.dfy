/** What each transaction of the store answers and leaves behind (`storage.rs`): when it succeeds, which error it
    gives otherwise, every column of the row that it writes, and that no other row differs. */
module StoreOutcomes {
  import opened Wrappers
  import opened Store
  import opened StoreRuns

  // ---- other rows -----------------------------------------------------------

  /** Of the projects only `id` may differ. */
  predicate ProjectsBut(db: Db, db': Db, id: string) {
    && db'.projects.Keys == db.projects.Keys + {id}
    && forall p | p in db.projects && p != id :: db'.projects[p] == db.projects[p]
  }

  predicate RevisionsBut(db: Db, db': Db, id: string) {
    && db'.revisions.Keys == db.revisions.Keys + {id}
    && forall k | k in db.revisions && k != id :: db'.revisions[k] == db.revisions[k]
  }

  predicate TokensBut(db: Db, db': Db, id: string) {
    && db'.tokens.Keys == db.tokens.Keys + {id} && db'.projects == db.projects && db'.revisions == db.revisions
    && forall t | t in db.tokens && t != id :: db'.tokens[t] == db.tokens[t]
  }

  // ---- projects and revisions -----------------------------------------------

  /** A create under fresh ids succeeds; the new project's draft and what it serves are its first revision. */
  lemma CreateSucceeds(db: Db, id: string, revisionId: string, name: string, target: string, fileName: string,
      source: seq<byte>, validation: string, now: int)
    requires Linear(db) && id !in db.projects && revisionId !in db.revisions
    ensures var (db', r) := Create(db, id, revisionId, name, target, fileName, source, validation, now);
            && r.Ok? && r.value.id == id && r.value.source == source && r.value.current == r.value.served == revisionId
            && ProjectsBut(db, db', id) && RevisionsBut(db, db', revisionId) && db'.tokens == db.tokens
            && var p := db'.projects[id];
            && p.name == name && p.target == target && p.fileName == fileName && p.validation == validation
            && p.current == p.served == Some(revisionId) && p.updatedAt == now && r.value.project == p
            && var row := db'.revisions[revisionId];
            && row.project == id && row.parent.None? && row.no == 1 && row.source == source
            && row.validation == validation && row.createdAt == now
  {
    hide ChainOk, PointersOk, NumbersUnique;
    assert !NumberTaken(db, id, 1) by {
      assert forall k | k in db.revisions :: BelowCurrent(db, k);
    }
  }

  /** What a save writes besides the bytes: the validation's outcome and the times. */
  lemma SaveStamps(db: Db, id: string, expected: string, revisionId: string, source: seq<byte>, validation: string,
      now: int)
    requires Linear(db)
    ensures var (db', r) := Save(db, id, expected, revisionId, source, validation, now);
            r.Ok? ==>
              && id in db.projects && ProjectsBut(db, db', id) && db'.tokens == db.tokens
              && var (p, p') := (db.projects[id], db'.projects[id]);
              && p'.validation == validation && p'.updatedAt == now && r.value.view.project == p'
              && p'.name == p.name && p'.target == p.target && p'.fileName == p.fileName && p'.served == p.served
              && (r.value.same ==> db'.revisions == db.revisions && p'.current == p.current)
              && (!r.value.same ==>
                    && p'.current == Some(revisionId) && RevisionsBut(db, db', revisionId)
                    && expected in db.revisions
                    && var row := db'.revisions[revisionId];
                    && row.project == id && row.parent == Some(expected) && row.source == source
                    && row.no == db.revisions[expected].no + 1
                    && row.validation == validation && row.createdAt == now)
  {
    hide Linear, NumberTaken, NextNumber;
    if id in db.projects {
      ServedOf(db, id);
      var current := db.projects[id].current.value;
      if !NumberTaken(db, id, NextNumber(db.revisions[current].no)) {
        NextIsNew(db, id, current);
      }
    }
  }

  /** A publish of another revision moves what is served and notes the time; one of the served revision does nothing. */
  lemma PublishWrites(db: Db, id: string, expectedCurrent: string, expectedServed: string, now: int)
    requires Linear(db)
    ensures var (db', r) := Publish(db, id, expectedCurrent, expectedServed, now);
            && (r.Ok? && r.value.same ==> db' == db)
            && (r.Ok? && !r.value.same ==>
                  && id in db.projects && ProjectsBut(db, db', id) && db'.revisions == db.revisions
                     && db'.tokens == db.tokens
                  && var (p, p') := (db.projects[id], db'.projects[id]);
                  && p'.served == Some(expectedCurrent) && p'.updatedAt == now
                  && p'.name == p.name && p'.target == p.target && p'.fileName == p.fileName
                  && p'.current == p.current && p'.validation == p.validation)
            && (r.Ok? ==> id in db'.projects && r.value.view.project == db'.projects[id])
            && (r.Err? ==>
                  && db' == db
                  && r.error == if id !in db.projects then ProjectNotFound
                                else if db.projects[id].current != Some(expectedCurrent) then Conflict
                                else PublishConflict)
  {
    hide Linear;
    if id in db.projects {
      ServedOf(db, id);
    }
  }

  /** A rename succeeds exactly for a project that is there, and changes its name and its time alone. */
  lemma RenameSucceeds(db: Db, id: string, name: string, now: int)
    requires Linear(db)
    ensures var (db', r) := Rename(db, id, name, now);
            && (r.Ok? <==> id in db.projects)
            && (r.Err? ==> db' == db && r.error == ProjectNotFound)
            && (r.Ok? ==>
                  && ProjectsBut(db, db', id) && db'.revisions == db.revisions && db'.tokens == db.tokens
                  && var (p, p') := (db.projects[id], db'.projects[id]);
                  && p'.name == name && p'.updatedAt == now && r.value.project == p' && r.value.id == id
                  && p'.target == p.target && p'.fileName == p.fileName && p'.validation == p.validation
                  && p'.current == p.current && p'.served == p.served)
  {
    hide Linear;
    if id in db.projects {
      ServedOf(db, id);
    }
  }

  /** A delete succeeds exactly for a project that is there, and what it leaves is as it was. */
  lemma DeleteLeaves(db: Db, id: string)
    ensures var (db', r) := Delete(db, id);
            && (r.Ok? <==> id in db.projects)
            && (r.Err? ==> db' == db && r.error == ProjectNotFound)
            && (r.Ok? ==>
                  && (forall p :: p in db'.projects <==> p in db.projects && p != id)
                  && (forall p | p in db'.projects :: db'.projects[p] == db.projects[p])
                  && (forall k | k in db'.revisions :: k in db.revisions && db'.revisions[k] == db.revisions[k])
                  && (forall t | t in db'.tokens :: t in db.tokens && db'.tokens[t] == db.tokens[t]))
  {
  }

  // ---- tokens ---------------------------------------------------------------

  /** A token is issued exactly for a project that is there, under an id and a secret that no token has; it is active,
      expires as asked for and was never used. */
  lemma IssueSucceeds(db: Db, project: string, id: string, secret: string, name: string, expiresAt: Option<int>,
      now: int)
    ensures var (db', r) := CreateToken(db, project, id, secret, name, expiresAt, now);
            && (r.Ok? <==>
                  && project in db.projects && id !in db.tokens
                  && forall t | t in db.tokens :: db.tokens[t].secret != secret)
            && (r.Err? ==> db' == db && r.error == if project in db.projects then Internal else ProjectNotFound)
            && (r.Ok? ==>
                  && TokensBut(db, db', id) && r.value == db'.tokens[id]
                  && var t := db'.tokens[id];
                  && t.project == project && t.secret == secret && t.name == name && t.createdAt == now
                  && t.expiresAt == expiresAt && t.lastUsedAt.None? && t.revokedAt.None?)
  {
  }

  /** An update writes the name and the expiry that were asked for, and nothing else. */
  lemma UpdateWrites(db: Db, project: string, id: string, name: string, expiresAt: Option<int>, expectedName: string,
      expectedExpiresAt: Option<int>)
    ensures var (db', r) := UpdateToken(db, project, id, name, expiresAt, expectedName, expectedExpiresAt);
            && (r.Ok? ==>
                  && id in db.tokens && TokensBut(db, db', id) && r.value == db'.tokens[id]
                  && var (t, t') := (db.tokens[id], db'.tokens[id]);
                  && t'.name == name && t'.expiresAt == expiresAt
                  && t'.project == t.project && t'.secret == t.secret && t'.createdAt == t.createdAt
                  && t'.lastUsedAt == t.lastUsedAt && t'.revokedAt == t.revokedAt)
            && (r.Err? ==>
                  r.error == if project !in db.projects then ProjectNotFound
                             else if ActiveToken(db, project, id) then TokenConflict else TokenNotFound)
  {
  }

  /** A revoke succeeds exactly for an active token of the project, and then the token is no longer active. */
  lemma RevokeSucceeds(db: Db, project: string, id: string, now: int)
    ensures var (db', r) := RevokeToken(db, project, id, now);
            && (r.Ok? <==> project in db.projects && ActiveToken(db, project, id))
            && (r.Err? ==>
                  db' == db && r.error == if project in db.projects then TokenNotFound else ProjectNotFound)
            && (r.Ok? ==>
                  && id in db.tokens && TokensBut(db, db', id) && !ActiveToken(db', project, id)
                  && var (t, t') := (db.tokens[id], db'.tokens[id]);
                  && t'.revokedAt == Some(now)
                  && t'.project == t.project && t'.secret == t.secret && t'.name == t.name
                  && t'.createdAt == t.createdAt && t'.lastUsedAt == t.lastUsedAt && t'.expiresAt == t.expiresAt)
  {
  }

  /** Only a token of the project that is revoked is removed, and it alone. */
  lemma PurgeSucceeds(db: Db, project: string, id: string)
    ensures var (db', r) := PurgeToken(db, project, id);
            && (r.Ok? <==>
                  && project in db.projects && id in db.tokens && db.tokens[id].project == project
                  && !ActiveToken(db, project, id))
            && (r.Err? ==>
                  db' == db && r.error == if project in db.projects then TokenNotFound else ProjectNotFound)
            && (r.Ok? ==>
                  && db'.projects == db.projects && db'.revisions == db.revisions
                  && (forall t :: t in db'.tokens <==> t in db.tokens && t != id)
                  && forall t | t in db'.tokens :: db'.tokens[t] == db.tokens[t])
  {
  }

  /** The recorded use changes nothing but the time of the last use. */
  lemma TouchWrites(db: Db, id: string, now: int)
    requires id in db.tokens
    ensures var db' := Touch(db, id, now);
            && TokensBut(db, db', id)
            && var (t, t') := (db.tokens[id], db'.tokens[id]);
            && t'.lastUsedAt == Some(now)
            && t'.project == t.project && t'.secret == t.secret && t'.name == t.name && t'.createdAt == t.createdAt
            && t'.expiresAt == t.expiresAt && t'.revokedAt == t.revokedAt
  {
  }
}
