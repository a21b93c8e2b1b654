/** The service the editor assumes is the one the store provides: seen as rows of revision numbers, every
    transaction moves a project's row forward, and a read returns exactly that row. */
module EditorOverStore {
  import Store
  import StoreRuns
  import StoreSafety
  import ProjectEditor

  /** A project as the editor's service row. */
  function RowOf(db: Store.Db, p: string): ProjectEditor.Row
    requires p in db.projects && StoreRuns.PointersOk(db, p)
    requires StoreSafety.CurrentNo(db, p) >= 0 && StoreSafety.ServedNo(db, p) >= 0
  {
    var project := db.projects[p];
    ProjectEditor.Row(project.name, project.updatedAt, project.current.value, project.served.value,
                      StoreSafety.CurrentNo(db, p), StoreSafety.ServedNo(db, p),
                      db.revisions[project.current.value].source, false)
  }

  lemma RowExists(db: Store.Db, p: string)
    requires StoreRuns.Linear(db) && p in db.projects
    ensures StoreRuns.PointersOk(db, p) && StoreSafety.CurrentNo(db, p) >= 1 && StoreSafety.ServedNo(db, p) >= 1
  {
    StoreRuns.ServedOf(db, p);
    assert StoreRuns.ChainOk(db, db.projects[p].current.value) && StoreRuns.ChainOk(db, db.projects[p].served.value);
  }

  /** Any transaction of the store is a step the editor allows its service to make. */
  lemma TransactionIsForward(w: StoreRuns.World, a: StoreRuns.Action, accepts: StoreRuns.Validator, p: string)
    requires StoreRuns.Inv(w, accepts) && StoreRuns.Enabled(w, a, accepts)
    requires p in w.db.projects && p in StoreRuns.Effect(w.db, a).projects
    ensures StoreRuns.Linear(StoreRuns.Effect(w.db, a))
    ensures StoreRuns.PointersOk(w.db, p) && StoreRuns.PointersOk(StoreRuns.Effect(w.db, a), p)
    ensures StoreSafety.CurrentNo(w.db, p) >= 0 && StoreSafety.ServedNo(w.db, p) >= 0
    ensures var db' := StoreRuns.Effect(w.db, a);
            && StoreSafety.CurrentNo(db', p) >= 0 && StoreSafety.ServedNo(db', p) >= 0
            && ProjectEditor.Forward(RowOf(w.db, p), RowOf(db', p))
  {
    hide StoreRuns.Linear, StoreRuns.Effect, StoreRuns.Validated, StoreRuns.TokensOk, StoreRuns.TicketsOk;
    StoreRuns.EffectLinear(w.db, a);
    StoreSafety.PointersForward(w, a, accepts, p);
    RowExists(w.db, p);
    RowExists(StoreRuns.Effect(w.db, a), p);
  }

  /** A deleted project stays deleted. */
  lemma DeletedStays(w: StoreRuns.World, a: StoreRuns.Action, accepts: StoreRuns.Validator, p: string)
    requires StoreRuns.Inv(w, accepts) && StoreRuns.Enabled(w, a, accepts) && p in w.used && p !in w.db.projects
    ensures p !in StoreRuns.Effect(w.db, a).projects
  {
    hide StoreRuns.Linear, StoreRuns.Effect, StoreRuns.Drawn;
    StoreRuns.EffectEvolves(w.db, a);
  }

  /** The project a successful save, publish, create or load returns is its row as the transaction leaves it. */
  lemma ViewIsRow(db: Store.Db, p: string)
    requires StoreRuns.Linear(db) && p in db.projects
    ensures StoreRuns.PointersOk(db, p) && StoreSafety.CurrentNo(db, p) >= 0 && StoreSafety.ServedNo(db, p) >= 0
    ensures var r := Store.FetchProject(db, p);
            && r.Ok?
            && var shown := ProjectEditor.View(p, RowOf(db, p));
            && r.value.source == shown.source && r.value.project.name == shown.name
            && r.value.current == shown.currentId && r.value.served == shown.servedId
            && db.revisions[r.value.current].no == shown.current && db.revisions[r.value.served].no == shown.served
  {
    hide StoreRuns.Linear;
    RowExists(db, p);
  }
}
