/** The revision store (`storage.rs`): three tables, each write one transaction over them. A function gives
    the effect of every transaction; the class runs it statement by statement and rolls back on failure. */
module Store {
  import opened Wrappers
  import Utf8

  type byte = Utf8.byte

  const I64_MAX: int := 0x7FFF_FFFF_FFFF_FFFF

  datatype Project = Project(
    name: string,
    target: string,
    fileName: string,
    current: Option<string>,
    served: Option<string>,
    validation: string,
    updatedAt: int)

  datatype Revision = Revision(project: string, parent: Option<string>, no: int, source: seq<byte>, validation: string,
      createdAt: int)

  /** `secret` stands for the stored hash of the plaintext. */
  datatype Token = Token(
    project: string,
    secret: string,
    name: string,
    createdAt: int,
    lastUsedAt: Option<int>,
    expiresAt: Option<int>,
    revokedAt: Option<int>)

  datatype Db = Db(projects: map<string, Project>, revisions: map<string, Revision>, tokens: map<string, Token>)

  datatype Error =
    | ProjectNotFound
    | TokenNotFound
    | Conflict
    | PublishConflict
    | TokenConflict
    | InvalidCursor
    | InvalidRequest
    | Internal

  datatype ProjectView = ProjectView(id: string, project: Project, source: seq<byte>, current: string, served: string)

  datatype Changed = Changed(view: ProjectView, same: bool)

  // ---- queries --------------------------------------------------------------

  /** The full project row, joined with its current revision. */
  function FetchProject(db: Db, id: string): Result<ProjectView, Error> {
    if id !in db.projects then Err(Internal)
    else
      var p := db.projects[id];
      if p.current.None? || p.current.value !in db.revisions || p.served.None? then Err(Internal)
      else Ok(ProjectView(id, p, db.revisions[p.current.value].source, p.current.value, p.served.value))
  }

  predicate NumberTaken(db: Db, project: string, no: int) {
    exists id | id in db.revisions :: db.revisions[id].project == project && db.revisions[id].no == no
  }

  predicate SecretTaken(db: Db, secret: string) {
    exists id | id in db.tokens :: db.tokens[id].secret == secret
  }

  /** One insert, with the table's two uniqueness constraints. */
  function InsertRevision(db: Db, id: string, revision: Revision): Option<Db> {
    if id in db.revisions || NumberTaken(db, revision.project, revision.no) then None
    else Some(db.(revisions := db.revisions[id := revision]))
  }

  function SetProject(db: Db, id: string, p: Project): Db {
    db.(projects := db.projects[id := p])
  }

  // ---- transactions ---------------------------------------------------------

  function Create(db: Db, id: string, revisionId: string, name: string, target: string, fileName: string,
      source: seq<byte>, validation: string, now: int): (Db, Result<ProjectView, Error>)
  {
    if id in db.projects then (db, Err(Internal))
    else
      match InsertRevision(db, revisionId, Revision(id, None, 1, source, validation, now))
      case None => (db, Err(Internal))
      case Some(inserted) =>
        var after := SetProject(inserted, id,
                                Project(name, target, fileName, Some(revisionId), Some(revisionId), validation, now));
        (after, FetchProject(after, id))
  }

  function NextNumber(no: int): int {
    if no == I64_MAX then I64_MAX else no + 1
  }

  /** Compare-and-swap of the draft: a changed source becomes a new revision on top of the expected one. */
  function Save(db: Db, id: string, expected: string, revisionId: string, source: seq<byte>, validation: string,
      now: int)
    : (Db, Result<Changed, Error>)
  {
    if id !in db.projects || db.projects[id].current.None? || db.projects[id].current.value !in db.revisions then
      (db, Err(ProjectNotFound))
    else
      var p := db.projects[id];
      var current := p.current.value;
      var row := db.revisions[current];
      if current != expected then (db, Err(Conflict))
      else if row.source == source then
        var after := SetProject(db, id, p.(validation := validation, updatedAt := now));
        Finished(db, after, id, true)
      else
        match InsertRevision(db, revisionId, Revision(id, Some(current), NextNumber(row.no), source, validation, now))
        case None => (db, Err(Internal))
        case Some(inserted) =>
          var after := SetProject(inserted, id,
                                  p.(current := Some(revisionId), validation := validation, updatedAt := now));
          Finished(db, after, id, false)
  }

  /** The result row, or a rollback when it cannot be read. */
  function Finished(db: Db, after: Db, id: string, same: bool): (Db, Result<Changed, Error>) {
    match FetchProject(after, id)
    case Ok(view) => (after, Ok(Changed(view, same)))
    case Err(error) => (db, Err(error))
  }

  /** Compare-and-swap of the served pointer. */
  function Publish(db: Db, id: string, expectedCurrent: string, expectedServed: string,
      now: int): (Db, Result<Changed, Error>) {
    if id !in db.projects then (db, Err(ProjectNotFound))
    else
      var p := db.projects[id];
      if p.current.None? || p.served.None? then (db, Err(Internal))
      else if p.current.value != expectedCurrent then (db, Err(Conflict))
      else if p.current != p.served && p.served.value != expectedServed then (db, Err(PublishConflict))
      else if p.current == p.served then Finished(db, db, id, true)
      else Finished(db, SetProject(db, id, p.(served := p.current, updatedAt := now)), id, false)
  }

  function Rename(db: Db, id: string, name: string, now: int): (Db, Result<ProjectView, Error>) {
    if id !in db.projects then (db, Err(ProjectNotFound))
    else
      var after := SetProject(db, id, db.projects[id].(name := name, updatedAt := now));
      match FetchProject(after, id)
      case Ok(view) => (after, Ok(view))
      case Err(error) => (db, Err(error))
  }

  /** The two child tables are cascaded. */
  function Delete(db: Db, id: string): (Db, Result<bool, Error>) {
    if id !in db.projects then (db, Err(ProjectNotFound))
    else
      (Db(db.projects - {id},
          map r | r in db.revisions && db.revisions[r].project != id :: db.revisions[r],
          map t | t in db.tokens && db.tokens[t].project != id :: db.tokens[t]), Ok(true))
  }

  function SetToken(db: Db, id: string, t: Token): Db {
    db.(tokens := db.tokens[id := t])
  }

  function CreateToken(db: Db, project: string, id: string, secret: string, name: string, expiresAt: Option<int>,
      now: int)
    : (Db, Result<Token, Error>)
  {
    if project !in db.projects then (db, Err(ProjectNotFound))
    else if id in db.tokens || SecretTaken(db, secret) then (db, Err(Internal))
    else
      var t := Token(project, secret, name, now, None, expiresAt, None);
      (SetToken(db, id, t), Ok(t))
  }

  predicate ActiveToken(db: Db, project: string, id: string) {
    id in db.tokens && db.tokens[id].project == project && db.tokens[id].revokedAt.None?
  }

  /** Compare-and-swap of a token's name and expiry. */
  function UpdateToken(db: Db, project: string, id: string, name: string, expiresAt: Option<int>, expectedName: string,
                       expectedExpiresAt: Option<int>): (Db, Result<Token, Error>)
  {
    if project !in db.projects then (db, Err(ProjectNotFound))
    else if !ActiveToken(db, project, id) then (db, Err(TokenNotFound))
    else
      var t := db.tokens[id];
      if t.name != expectedName || t.expiresAt != expectedExpiresAt then (db, Err(TokenConflict))
      else
        var t' := t.(name := name, expiresAt := expiresAt);
        (SetToken(db, id, t'), Ok(t'))
  }

  function RevokeToken(db: Db, project: string, id: string, now: int): (Db, Result<bool, Error>) {
    if project !in db.projects then (db, Err(ProjectNotFound))
    else if !ActiveToken(db, project, id) then (db, Err(TokenNotFound))
    else (SetToken(db, id, db.tokens[id].(revokedAt := Some(now))), Ok(true))
  }

  function PurgeToken(db: Db, project: string, id: string): (Db, Result<bool, Error>) {
    if project !in db.projects then (db, Err(ProjectNotFound))
    else if id !in db.tokens || db.tokens[id].project != project || db.tokens[id].revokedAt.None? then
      (db, Err(TokenNotFound))
    else (db.(tokens := db.tokens - {id}), Ok(true))
  }

  datatype Subscription = Subscription(source: seq<byte>, fileName: string)

  /** The token, its project and the served revision, joined: the row that a plaintext selects. */
  predicate Serves(db: Db, id: string, plaintext: string, now: int) {
    && id in db.tokens
    && var t := db.tokens[id];
    && t.secret == plaintext && t.revokedAt.None? && (t.expiresAt.Some? ==> t.expiresAt.value > now)
    && t.project in db.projects
    && var p := db.projects[t.project];
    p.served.Some? && p.served.value in db.revisions
  }

  function ServedBy(db: Db, id: string): Subscription
    requires id in db.tokens && db.tokens[id].project in db.projects
    requires var p := db.projects[db.tokens[id].project]; p.served.Some? && p.served.value in db.revisions
  {
    var p := db.projects[db.tokens[id].project];
    Subscription(db.revisions[p.served.value].source, p.fileName)
  }

  /** What a subscription request at time `now` may answer. */
  ghost predicate Answers(db: Db, plaintext: string, now: int, r: Result<Subscription, Error>) {
    match r
    case Ok(s) =>
      |Utf8.Encode(plaintext)| <= 256 && exists id :: Serves(db, id, plaintext, now) && s == ServedBy(db, id)
    case Err(e) =>
      e == TokenNotFound && (|Utf8.Encode(plaintext)| > 256 || forall id :: !Serves(db, id, plaintext, now))
  }

  /** Recording the use is a second statement of its own. */
  function Touch(db: Db, id: string, now: int): Db {
    if id !in db.tokens then db else SetToken(db, id, db.tokens[id].(lastUsedAt := Some(now)))
  }

  // ---- the store, statement by statement ------------------------------------

  class Connection {
    var projects: map<string, Project>
    var revisions: map<string, Revision>
    var tokens: map<string, Token>
    /** The tables as they were at BEGIN. */
    var begun: Db

    function Tables(): Db
      reads this
    {
      Db(projects, revisions, tokens)
    }

    constructor ()
      ensures Tables() == Db(map[], map[], map[])
    {
      projects, revisions, tokens, begun := map[], map[], map[], Db(map[], map[], map[]);
    }

    method Begin()
      modifies this
      ensures Tables() == old(Tables()) == begun
    {
      begun := Db(projects, revisions, tokens);
    }

    /** Commit on success, roll back on error. */
    method Finish(ok: bool)
      modifies this
      ensures Tables() == if ok then old(Tables()) else old(begun)
    {
      if !ok {
        projects, revisions, tokens := begun.projects, begun.revisions, begun.tokens;
      }
    }

    method Insert(id: string, revision: Revision) returns (ok: bool)
      modifies this
      ensures begun == old(begun)
      ensures InsertRevision(old(Tables()), id, revision) == if ok then Some(Tables()) else None
      ensures !ok ==> Tables() == old(Tables())
    {
      if id in revisions || NumberTaken(Tables(), revision.project, revision.no) {
        return false;
      }
      revisions := revisions[id := revision];
      ok := true;
    }

    method CreateProjectInner(id: string, revisionId: string, name: string, target: string, fileName: string,
        source: seq<byte>, validation: string, now: int) returns (r: Result<ProjectView, Error>)
      modifies this
      ensures begun == old(begun)
      ensures r == Create(old(Tables()), id, revisionId, name, target, fileName, source, validation, now).1
      ensures r.Ok? ==> Tables() == Create(old(Tables()), id, revisionId, name, target, fileName, source, validation,
                                           now).0
    {
      ghost var before := Tables();
      if id in projects {
        return Err(Internal);
      }
      projects := projects[id := Project(name, target, fileName, None, None, validation, now)];
      assert NumberTaken(Tables(), id, 1) == NumberTaken(before, id, 1);
      var inserted := Insert(revisionId, Revision(id, None, 1, source, validation, now));
      if !inserted {
        return Err(Internal);
      }
      projects := projects[id := projects[id].(current := Some(revisionId), served := Some(revisionId))];
      assert projects == before.projects[id := projects[id]];
      r := FetchProject(Tables(), id);
    }

    method CreateProject(id: string, revisionId: string, name: string, target: string, fileName: string,
        source: seq<byte>, validation: string, now: int) returns (r: Result<ProjectView, Error>)
      modifies this
      ensures (Tables(), r) == Create(old(Tables()), id, revisionId, name, target, fileName, source, validation, now)
    {
      hide FetchProject;
      Begin();
      r := CreateProjectInner(id, revisionId, name, target, fileName, source, validation, now);
      CreateReads(begun, id, revisionId, name, target, fileName, source, validation, now);
      Finish(r.Ok?);
    }

    method SaveRevisionInner(id: string, expected: string, revisionId: string, source: seq<byte>, validation: string,
        now: int)
      returns (r: Result<Changed, Error>)
      modifies this
      ensures begun == old(begun)
      ensures r == Save(old(Tables()), id, expected, revisionId, source, validation, now).1
      ensures r.Ok? ==> Tables() == Save(old(Tables()), id, expected, revisionId, source, validation, now).0
    {
      if id !in projects || projects[id].current.None? || projects[id].current.value !in revisions {
        return Err(ProjectNotFound);
      }
      var current := projects[id].current.value;
      if current != expected {
        return Err(Conflict);
      }
      if revisions[current].source == source {
        projects := projects[id := projects[id].(validation := validation, updatedAt := now)];
        var unchangedView := FetchProject(Tables(), id);
        return if unchangedView.Ok? then Ok(Changed(unchangedView.value, true)) else Err(unchangedView.error);
      }
      var inserted := Insert(revisionId,
                             Revision(id, Some(current), NextNumber(revisions[current].no), source, validation, now));
      if !inserted {
        return Err(Internal);
      }
      projects :=
        projects[id := projects[id].(current := Some(revisionId), validation := validation, updatedAt := now)];
      var view := FetchProject(Tables(), id);
      r := if view.Ok? then Ok(Changed(view.value, false)) else Err(view.error);
    }

    method SaveRevision(id: string, expected: string, revisionId: string, source: seq<byte>, validation: string,
        now: int)
      returns (r: Result<Changed, Error>)
      modifies this
      ensures (Tables(), r) == Save(old(Tables()), id, expected, revisionId, source, validation, now)
    {
      Begin();
      r := SaveRevisionInner(id, expected, revisionId, source, validation, now);
      Finish(r.Ok?);
    }

    method PublishProject(id: string, expectedCurrent: string, expectedServed: string, now: int)
        returns (r: Result<Changed, Error>)
      modifies this
      ensures (Tables(), r) == Publish(old(Tables()), id, expectedCurrent, expectedServed, now)
    {
      Begin();
      r := PublishProjectInner(id, expectedCurrent, expectedServed, now);
      Finish(r.Ok?);
    }

    method PublishProjectInner(id: string, expectedCurrent: string, expectedServed: string, now: int)
        returns (r: Result<Changed, Error>)
      modifies this
      ensures begun == old(begun)
      ensures r == Publish(old(Tables()), id, expectedCurrent, expectedServed, now).1
      ensures r.Ok? ==> Tables() == Publish(old(Tables()), id, expectedCurrent, expectedServed, now).0
    {
      if id !in projects {
        return Err(ProjectNotFound);
      }
      if projects[id].current.None? || projects[id].served.None? {
        return Err(Internal);
      }
      var current, served := projects[id].current.value, projects[id].served.value;
      if current != expectedCurrent {
        return Err(Conflict);
      }
      if current != served && served != expectedServed {
        return Err(PublishConflict);
      }
      if current == served {
        var unchangedView := FetchProject(Tables(), id);
        return if unchangedView.Ok? then Ok(Changed(unchangedView.value, true)) else Err(unchangedView.error);
      }
      projects := projects[id := projects[id].(served := Some(current), updatedAt := now)];
      var view := FetchProject(Tables(), id);
      r := if view.Ok? then Ok(Changed(view.value, false)) else Err(view.error);
    }

    method RenameProject(id: string, name: string, now: int) returns (r: Result<ProjectView, Error>)
      modifies this
      ensures (Tables(), r) == Rename(old(Tables()), id, name, now)
    {
      Begin();
      if id !in projects {
        r := Err(ProjectNotFound);
      } else {
        projects := projects[id := projects[id].(name := name, updatedAt := now)];
        r := FetchProject(Tables(), id);
      }
      Finish(r.Ok?);
    }

    method DeleteProject(id: string) returns (r: Result<bool, Error>)
      modifies this
      ensures (Tables(), r) == Delete(old(Tables()), id)
    {
      if id !in projects {
        return Err(ProjectNotFound);
      }
      projects := projects - {id};
      revisions := map r | r in revisions && revisions[r].project != id :: revisions[r];
      tokens := map t | t in tokens && tokens[t].project != id :: tokens[t];
      r := Ok(true);
    }

    method CreateTokenInner(project: string, id: string, secret: string, name: string, expiresAt: Option<int>, now: int)
      returns (r: Result<Token, Error>)
      modifies this
      ensures (Tables(), r) == CreateToken(old(Tables()), project, id, secret, name, expiresAt, now)
    {
      if project !in projects {
        return Err(ProjectNotFound);
      }
      if id in tokens || SecretTaken(Tables(), secret) {
        return Err(Internal);
      }
      tokens := tokens[id := Token(project, secret, name, now, None, expiresAt, None)];
      r := Ok(tokens[id]);
    }

    /** A conditional update; only when no row matched is it asked why. */
    method UpdateTokenInner(project: string, id: string, name: string, expiresAt: Option<int>, expectedName: string,
                            expectedExpiresAt: Option<int>) returns (r: Result<Token, Error>)
      modifies this
      ensures (Tables(), r) == UpdateToken(old(Tables()), project, id, name, expiresAt, expectedName, expectedExpiresAt)
    {
      if project !in projects {
        return Err(ProjectNotFound);
      }
      var affected := 0;
      if id in tokens && tokens[id].project == project && tokens[id].revokedAt.None? && tokens[id].name == expectedName
         && tokens[id].expiresAt == expectedExpiresAt {
        tokens := tokens[id := tokens[id].(name := name, expiresAt := expiresAt)];
        affected := 1;
      }
      if affected == 0 {
        return if ActiveToken(Tables(), project, id) then Err(TokenConflict) else Err(TokenNotFound);
      }
      r := Ok(tokens[id]);
    }

    method RevokeTokenInner(project: string, id: string, now: int) returns (r: Result<bool, Error>)
      modifies this
      ensures (Tables(), r) == RevokeToken(old(Tables()), project, id, now)
    {
      if project !in projects {
        return Err(ProjectNotFound);
      }
      if !ActiveToken(Tables(), project, id) {
        return Err(TokenNotFound);
      }
      tokens := tokens[id := tokens[id].(revokedAt := Some(now))];
      r := Ok(true);
    }

    method DeleteRevokedTokenInner(project: string, id: string) returns (r: Result<bool, Error>)
      modifies this
      ensures (Tables(), r) == PurgeToken(old(Tables()), project, id)
    {
      if project !in projects {
        return Err(ProjectNotFound);
      }
      if id !in tokens || tokens[id].project != project || tokens[id].revokedAt.None? {
        return Err(TokenNotFound);
      }
      tokens := tokens - {id};
      r := Ok(true);
    }

    /** The joined read, then a second statement outside any transaction that records the use. Either statement
        can fail, as `selected` and `recorded` say. */
    method SubscriptionAt(plaintext: string, now: int, clock: int, selected: bool, recorded: bool)
      returns (r: Result<Subscription, Error>)
      modifies this
      ensures r == Err(Internal)
              <==> |Utf8.Encode(plaintext)| <= 256
                   && (!selected || (!recorded && exists id :: Serves(old(Tables()), id, plaintext, now)))
      ensures r != Err(Internal) ==> Answers(old(Tables()), plaintext, now, r)
      ensures r.Err? ==> Tables() == old(Tables())
      ensures r.Ok? ==>
                exists id :: Serves(old(Tables()), id, plaintext, now) && Tables() == Touch(old(Tables()), id, clock)
    {
      if |Utf8.Encode(plaintext)| > 256 {
        return Err(TokenNotFound);
      }
      if !selected {
        return Err(Internal);
      }
      if !exists id | id in tokens :: Serves(Tables(), id, plaintext, now) {
        return Err(TokenNotFound);
      }
      var id :| id in tokens && Serves(Tables(), id, plaintext, now);
      if !recorded {
        return Err(Internal);
      }
      r := Ok(ServedBy(Tables(), id));
      tokens := tokens[id := tokens[id].(lastUsedAt := Some(clock))];
    }
  }

  /** The new project can be read back, so a create either succeeds or changes nothing. */
  lemma CreateReads(db: Db, id: string, revisionId: string, name: string, target: string, fileName: string,
      source: seq<byte>, validation: string, now: int)
    ensures var (after, r) := Create(db, id, revisionId, name, target, fileName, source, validation, now);
            r.Err? ==> after == db
  {
  }
}
