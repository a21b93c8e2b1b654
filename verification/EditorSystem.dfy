/** The editor and the store as one system: requests are carried out by the store's transactions among everybody
    else's, and answered with what those transactions return. Every run of the two is a run of the editor against
    rows that only move forward, so what holds for the editor alone holds for the system. */
module EditorSystem {
  import opened Wrappers
  import opened ProjectEditor
  import Store
  import StoreRuns
  import StoreSafety
  import EditorOverStore
  import ProjectEditorRuns

  type Action = StoreRuns.Action

  datatype System = System(store: StoreRuns.World, client: World)

  datatype Step =
    | Client(event: Event)
    | Transaction(action: Action)
    | Answered(call: Call, done: Option<Action>, answer: Answer)

  // ---- the rows that a store shows ------------------------------------------

  /** The row of a live project; `Unreadable` is never shown, as `LiveRow` says. */
  function RowIn(db: Store.Db, p: string): Row
    requires p in db.projects
  {
    if StoreRuns.PointersOk(db, p) && StoreSafety.CurrentNo(db, p) >= 0 && StoreSafety.ServedNo(db, p) >= 0
    then EditorOverStore.RowOf(db, p) else Unreadable
  }

  const Unreadable: Row := Row("", 0, "", "", 0, 0, [], true)

  /** A project that is gone keeps its last row, as deleted. */
  function RowsAfter(rows: map<string, Row>, db: Store.Db): map<string, Row> {
    map p | p in rows.Keys + db.projects.Keys :: if p in db.projects then RowIn(db, p) else rows[p].(deleted := true)
  }

  lemma LiveRow(db: Store.Db, p: string)
    requires StoreRuns.Linear(db) && p in db.projects
    ensures StoreRuns.PointersOk(db, p) && StoreSafety.CurrentNo(db, p) >= 1 && StoreSafety.ServedNo(db, p) >= 1
    ensures RowIn(db, p) == EditorOverStore.RowOf(db, p) && !RowIn(db, p).deleted
  {
    hide StoreRuns.Linear;
    EditorOverStore.RowExists(db, p);
  }

  // ---- requests and answers -------------------------------------------------

  /** The transaction is the one that the request asks for, with the revision ids it was shown. */
  predicate Asks(call: Call, a: Action) {
    match call
    case LoadCall(_, _) => false
    case SaveCall(_, project, source) =>
      a.Saving? && a.ticket.project == project.id && a.ticket.source == source && a.ticket.expected == project.currentId
    case PublishCall(_, project) =>
      && a.Publishing? && a.id == project.id && a.expectedCurrent == project.currentId
      && a.expectedServed == project.servedId
    case RenameCall(_, id, name, _) => a.Renaming? && a.id == id && a.name == name
  }

  /** What a save or a publish returns, and what a load reads. */
  function Returned(db: Store.Db, a: Action): Option<Store.ProjectView> {
    match a
    case Saving(ticket, revisionId, validation, now) =>
      ViewOf(Store.Save(db, ticket.project, ticket.expected, revisionId, ticket.source, validation, now).1)
    case Publishing(id, expectedCurrent, expectedServed, now) =>
      ViewOf(Store.Publish(db, id, expectedCurrent, expectedServed, now).1)
    case _ => None
  }

  function ViewOf(r: Result<Store.Changed, Store.Error>): Option<Store.ProjectView> {
    if r.Ok? then Some(r.value.view) else None
  }

  function Read(db: Store.Db, id: string): Option<Store.ProjectView> {
    var r := Store.FetchProject(db, id);
    if r.Ok? then Some(r.value) else None
  }

  /** A returned project with the numbers that its revision ids stand for. */
  predicate Renders(db: Store.Db, view: Store.ProjectView, p: Project) {
    && p.id == view.id && p.name == view.project.name && p.updatedAt == view.project.updatedAt
       && p.source == view.source
    && p.currentId == view.current && view.current in db.revisions && db.revisions[view.current].no == p.current
    && p.servedId == view.served && view.served in db.revisions && db.revisions[view.served].no == p.served
  }

  function After(db: Store.Db, a: Option<Action>): Store.Db {
    if a.Some? then StoreRuns.Effect(db, a.value) else db
  }

  /** An answer may be lost or refused; otherwise it is what the transaction returned. */
  predicate Says(db: Store.Db, call: Call, a: Option<Action>, answer: Answer) {
    match answer
    case Failed => true
    case NotFound => true
    case Renamed(name, updatedAt) =>
      && call.RenameCall? && a.Some? && a.value.Renaming?
      && var r := Store.Rename(db, a.value.id, a.value.name, a.value.now).1;
      r.Ok? && r.value.project.name == name && r.value.project.updatedAt == updatedAt
    case Done(p) =>
      && (a.None? ==> call.LoadCall?)
      && var view := if a.Some? then Returned(db, a.value) else Read(db, ProjectOf(call));
      view.Some? && Renders(After(db, a), view.value, p)
  }

  // ---- steps ----------------------------------------------------------------

  ghost predicate Enabled(s: System, step: Step, accepts: StoreRuns.Validator) {
    match step
    case Client(v) => !v.Serving? && !v.Processing? && ProjectEditor.Enabled(s.client, v)
    case Transaction(a) => StoreRuns.Enabled(s.store, a, accepts)
    case Answered(call, a, answer) =>
      && call in s.client.calls
      && (a.Some? ==> StoreRuns.Enabled(s.store, a.value, accepts) && Asks(call, a.value))
      && Says(s.store.db, call, a, answer)
  }

  /** What the step is to the store, and to the editor. */
  function ActionOf(step: Step): Option<Action> {
    match step
    case Client(_) => None
    case Transaction(a) => Some(a)
    case Answered(_, a, _) => a
  }

  function EventOf(s: System, step: Step): Event {
    var rows := RowsAfter(s.client.rows, After(s.store.db, ActionOf(step)));
    match step
    case Client(v) => v
    case Transaction(_) => Serving(rows)
    case Answered(call, _, answer) => Processing(call, answer, rows)
  }

  function Next(s: System, step: Step, accepts: StoreRuns.Validator): System {
    var a := ActionOf(step);
    System(if a.Some? then StoreRuns.Next(s.store, a.value, accepts) else s.store,
           ProjectEditor.Next(s.client, EventOf(s, step)))
  }

  ghost predicate Run(systems: seq<System>, steps: seq<Step>, accepts: StoreRuns.Validator, id: string) {
    && |systems| == |steps| + 1 && systems[0] == System(StoreRuns.Initial, Start(id))
    && forall i | 0 <= i < |steps| ::
         Enabled(systems[i], steps[i], accepts) && systems[i + 1] == Next(systems[i], steps[i], accepts)
  }

  // ---- the invariant --------------------------------------------------------

  /** The rows are those of the store, and of the projects that were once in it. */
  predicate RowsOk(rows: map<string, Row>, db: Store.Db, used: set<string>) {
    && rows.Keys <= used && db.projects.Keys <= rows.Keys
    && forall p | p in rows :: if p in db.projects then rows[p] == RowIn(db, p) else rows[p].deleted
  }

  /** The id stands for the number, as long as it stands for anything; it is never drawn again. */
  predicate Names(w: StoreRuns.World, p: string, id: string, no: nat) {
    id in w.used && (id in w.db.revisions ==> w.db.revisions[id].project == p && w.db.revisions[id].no == no)
  }

  predicate Known(w: StoreRuns.World, p: Project) {
    Names(w, p.id, p.currentId, p.current) && Names(w, p.id, p.servedId, p.served)
  }

  /** So it is with every project that the editor holds, has captured in a request, or will receive. */
  ghost predicate HeldOk(w: StoreRuns.World, client: World) {
    && (client.e.project.Some? ==> Known(w, client.e.project.value))
    && (forall c | Pending(client, c) && Gated(c) :: Known(w, c.project))
    && (forall a | a in client.answers && a.1.Done? :: Known(w, a.1.project))
  }

  ghost predicate Inv(s: System, accepts: StoreRuns.Validator) {
    && StoreRuns.Inv(s.store, accepts) && RowsOk(s.client.rows, s.store.db, s.store.used)
    && HeldOk(s.store, s.client)
  }

  /** A transaction by anyone moves every row forward; in particular nothing deleted comes back. */
  lemma RowsMove(s: System, a: Action, accepts: StoreRuns.Validator)
    requires Inv(s, accepts) && StoreRuns.Enabled(s.store, a, accepts)
    ensures var rows' := RowsAfter(s.client.rows, StoreRuns.Effect(s.store.db, a));
            && RowsForward(s.client.rows, rows')
            && RowsOk(rows', StoreRuns.Effect(s.store.db, a), StoreRuns.Next(s.store, a, accepts).used)
  {
    hide StoreRuns.Inv, StoreRuns.Enabled, StoreRuns.Effect, StoreRuns.Drawn, RowsOk, RowsAfter, ProjectEditor.Forward;
    var db' := StoreRuns.Effect(s.store.db, a);
    var rows, rows' := s.client.rows, RowsAfter(s.client.rows, db');
    StoreSafety.StepKeepsInv(s.store, a, accepts);
    UsedProjects(StoreRuns.Next(s.store, a, accepts), accepts);
    RowsOkAfter(rows, s.store.db, db', s.store.used, StoreRuns.Next(s.store, a, accepts).used);
    forall p | p in rows
      ensures p in rows' && ProjectEditor.Forward(rows[p], rows'[p])
    {
      RowMoves(s, a, accepts, p);
    }
  }

  lemma RowsOkAfter(rows: map<string, Row>, db: Store.Db, db': Store.Db, used: set<string>, used': set<string>)
    requires RowsOk(rows, db, used) && used <= used' && db'.projects.Keys <= used'
    ensures RowsOk(RowsAfter(rows, db'), db', used')
  {
    hide RowIn;
  }

  lemma UsedProjects(w: StoreRuns.World, accepts: StoreRuns.Validator)
    requires StoreRuns.Inv(w, accepts)
    ensures w.db.projects.Keys <= w.used && StoreRuns.Linear(w.db)
  {
  }

  lemma RowMoves(s: System, a: Action, accepts: StoreRuns.Validator, p: string)
    requires Inv(s, accepts) && StoreRuns.Enabled(s.store, a, accepts) && p in s.client.rows
    ensures p in RowsAfter(s.client.rows, StoreRuns.Effect(s.store.db, a))
    ensures ProjectEditor.Forward(s.client.rows[p], RowsAfter(s.client.rows, StoreRuns.Effect(s.store.db, a))[p])
  {
    var w, db' := s.store, StoreRuns.Effect(s.store.db, a);
    hide StoreRuns.Inv, StoreRuns.Enabled, StoreRuns.Effect, EditorOverStore.RowOf, RowIn;
    if p in w.db.projects && p in db'.projects {
      EditorOverStore.TransactionIsForward(w, a, accepts, p);
      UsedProjects(w, accepts);
      LiveRow(w.db, p);
      LiveRow(db', p);
    } else if p !in w.db.projects {
      EditorOverStore.DeletedStays(w, a, accepts, p);
    }
  }

  /** Without a transaction the rows stay as they are. */
  lemma RowsRest(rows: map<string, Row>, db: Store.Db, used: set<string>)
    requires RowsOk(rows, db, used)
    ensures RowsAfter(rows, db) == rows && RowsForward(rows, rows)
  {
    hide RowIn;
    assert forall p | p in rows && rows[p].deleted :: rows[p].(deleted := true) == rows[p];
  }

  // ---- answers are rows -----------------------------------------------------

  /** What a transaction returns is what it leaves in the store. */
  lemma ReturnedIsStored(db: Store.Db, a: Action)
    requires Returned(db, a).Some?
    ensures var view := Returned(db, a).value;
            && Store.FetchProject(StoreRuns.Effect(db, a), view.id) == Ok(view)
            && view.id == if a.Saving? then a.ticket.project else a.id
  {
    hide Store.InsertRevision, Store.NextNumber;
  }

  lemma RenderedIsRow(db: Store.Db, view: Store.ProjectView, p: Project)
    requires StoreRuns.Linear(db) && Store.FetchProject(db, view.id) == Ok(view) && Renders(db, view, p)
    ensures view.id in db.projects && p == View(view.id, RowIn(db, view.id)) && !RowIn(db, view.id).deleted
  {
    hide StoreRuns.Linear;
    LiveRow(db, view.id);
    EditorOverStore.ViewIsRow(db, view.id);
  }

  /** An answer of the store is one the editor allows its service to give. */
  lemma AnswerIsOk(db: Store.Db, rows: map<string, Row>, call: Call, a: Option<Action>, answer: Answer)
    requires Says(db, call, a, answer) && (a.Some? ==> Asks(call, a.value)) && StoreRuns.Linear(After(db, a))
    ensures AnswerOk(RowsAfter(rows, After(db, a)), call, answer)
  {
    hide StoreRuns.Linear, StoreRuns.Effect, Store.FetchProject, RowIn, Renders;
    if answer.Done? {
      if a.Some? {
        ReturnedIsStored(db, a.value);
        ReturnedMeans(db, a.value);
        RenderedIsRow(After(db, a), Returned(db, a.value).value, answer.project);
      } else {
        ReadIsStored(db, ProjectOf(call));
        RenderedIsRow(db, Read(db, ProjectOf(call)).value, answer.project);
      }
    }
  }

  lemma ReturnedMeans(db: Store.Db, a: Action)
    requires Returned(db, a).Some?
    ensures a.Saving? || a.Publishing?
  {
  }

  lemma ReadIsStored(db: Store.Db, id: string)
    requires Read(db, id).Some?
    ensures Read(db, id).value.id == id && Store.FetchProject(db, id) == Ok(Read(db, id).value)
  {
  }

  // ---- ids keep standing for their numbers ----------------------------------

  /** Rows of revisions never change, and the id of a deleted one is not drawn again. */
  lemma KnownStays(w: StoreRuns.World, a: Action, accepts: StoreRuns.Validator, p: Project)
    requires StoreRuns.Inv(w, accepts) && StoreRuns.Enabled(w, a, accepts) && Known(w, p)
    ensures Known(StoreRuns.Next(w, a, accepts), p)
  {
    hide StoreRuns.Linear, StoreRuns.Validated, StoreRuns.TokensOk, StoreRuns.TicketsOk, StoreRuns.Effect,
      StoreRuns.Drawn, StoreRuns.Tickets;
    StoreRuns.EffectEvolves(w.db, a);
  }

  lemma HeldStays(w: StoreRuns.World, a: Action, accepts: StoreRuns.Validator, client: World)
    requires StoreRuns.Inv(w, accepts) && StoreRuns.Enabled(w, a, accepts) && HeldOk(w, client)
    ensures HeldOk(StoreRuns.Next(w, a, accepts), client)
  {
    hide StoreRuns.Inv, StoreRuns.Enabled, StoreRuns.Next, Known, Pending;
    var w' := StoreRuns.Next(w, a, accepts);
    forall p | Known(w, p)
      ensures Known(w', p)
    {
      KnownStays(w, a, accepts, p);
    }
  }

  lemma RenamedKnown(w: StoreRuns.World, p: Project, name: string, updatedAt: int)
    requires Known(w, p)
    ensures Known(w, p.(name := name)) && Known(w, p.(name := name, updatedAt := updatedAt))
  {
  }

  lemma DeliveredKnown(w: StoreRuns.World, e: Editor, call: Call, answer: Answer)
    requires e.project.Some? ==> Known(w, e.project.value)
    requires answer.Done? ==> Known(w, answer.project)
    ensures var e' := Deliver(e, call, answer); e'.project.Some? ==> Known(w, e'.project.value)
  {
    hide Known;
    if e.project.Some? {
      if answer.Renamed? {
        RenamedKnown(w, e.project.value, answer.name, answer.updatedAt);
      }
      if answer.Done? {
        RenamedKnown(w, answer.project, e.project.value.name, 0);
      }
    }
  }

  /** The editor itself only passes on what it holds. */
  lemma ClientHolds(w: StoreRuns.World, client: World, v: Event)
    requires HeldOk(w, client) && ProjectEditor.Enabled(client, v) && !v.Serving? && !v.Processing?
    ensures HeldOk(w, ProjectEditor.Next(client, v))
  {
    hide Known;
    var client' := ProjectEditor.Next(client, v);
    if v.Delivering? {
      DeliveredKnown(w, client.e, v.call, v.answer);
      hide Deliver;
      PendingFewer(client, client');
    } else {
      PendingMore(client, client');
    }
  }

  lemma PendingFewer(client: World, client': World)
    requires client'.calls <= client.calls && client'.answers <= client.answers
    ensures forall c | Pending(client', c) :: Pending(client, c)
  {
  }

  lemma PendingMore(client: World, client': World)
    requires client'.answers == client.answers
    ensures forall c | Pending(client', c) :: Pending(client, c) || c in client'.calls
    ensures forall c | c in client.calls :: Pending(client, c)
  {
  }

  lemma AnswerHolds(w: StoreRuns.World, client: World, call: Call, answer: Answer, rows: map<string, Row>)
    requires HeldOk(w, client) && call in client.calls && (answer.Done? ==> Known(w, answer.project))
    ensures HeldOk(w, ProjectEditor.Next(client, Processing(call, answer, rows)))
  {
    hide Known;
    var client' := ProjectEditor.Next(client, Processing(call, answer, rows));
    forall c | Pending(client', c)
      ensures Pending(client, c)
    {
      if c !in client.calls {
        var a :| (c, a) in client'.answers;
        assert (c, a) in client.answers;
      }
    }
  }

  /** What the store returns is known to it. */
  lemma RenderedKnown(w: StoreRuns.World, accepts: StoreRuns.Validator, view: Store.ProjectView, p: Project)
    requires StoreRuns.Inv(w, accepts) && Store.FetchProject(w.db, view.id) == Ok(view) && Renders(w.db, view, p)
    ensures Known(w, p)
  {
    hide StoreRuns.Linear, StoreRuns.Validated, StoreRuns.TokensOk, StoreRuns.TicketsOk;
    StoreRuns.ServedOf(w.db, view.id);
  }

  lemma AnswerKnown(s: System, step: Step, accepts: StoreRuns.Validator)
    requires Inv(s, accepts) && Enabled(s, step, accepts) && step.Answered? && step.answer.Done?
    ensures Known(Next(s, step, accepts).store, step.answer.project)
  {
    var db, a, p := s.store.db, step.done, step.answer.project;
    hide StoreRuns.Inv, StoreRuns.Enabled, StoreRuns.Effect, RowsOk, RowsAfter, HeldOk, Known, Renders,
      Store.FetchProject, ProjectEditor.Next;
    if a.Some? {
      ReturnedIsStored(db, a.value);
      StoreSafety.StepKeepsInv(s.store, a.value, accepts);
      RenderedKnown(StoreRuns.Next(s.store, a.value, accepts), accepts, Returned(db, a.value).value, p);
    } else {
      ReadIsStored(db, ProjectOf(step.call));
      RenderedKnown(s.store, accepts, Read(db, ProjectOf(step.call)).value, p);
    }
  }

  lemma StepHolds(s: System, step: Step, accepts: StoreRuns.Validator)
    requires Inv(s, accepts) && Enabled(s, step, accepts)
    ensures HeldOk(Next(s, step, accepts).store, Next(s, step, accepts).client)
  {
    hide StoreRuns.Inv, StoreRuns.Enabled, StoreRuns.Effect, StoreRuns.Next, RowsOk, RowsAfter, HeldOk, Known, Says,
      Asks;
    if ActionOf(step).Some? {
      HeldStays(s.store, ActionOf(step).value, accepts, s.client);
    }
    var w := Next(s, step, accepts).store;
    match step
    case Client(v) => ClientHolds(s.store, s.client, v);
    case Transaction(_) => RowsHold(w, s.client, RowsAfter(s.client.rows, After(s.store.db, ActionOf(step))));
    case Answered(call, a, answer) =>
      if answer.Done? {
        AnswerKnown(s, step, accepts);
      }
      AnswerHolds(w, s.client, call, answer, RowsAfter(s.client.rows, After(s.store.db, a)));
  }

  lemma RowsHold(w: StoreRuns.World, client: World, rows: map<string, Row>)
    requires HeldOk(w, client)
    ensures HeldOk(w, ProjectEditor.Next(client, Serving(rows)))
  {
    hide Known;
    PendingFewer(client, ProjectEditor.Next(client, Serving(rows)));
  }

  // ---- the system runs the editor -------------------------------------------

  /** Each step of the system is an event that the editor's own state machine allows. */
  lemma StepIsEvent(s: System, step: Step, accepts: StoreRuns.Validator)
    requires Inv(s, accepts) && Enabled(s, step, accepts)
    ensures ProjectEditor.Enabled(s.client, EventOf(s, step)) && Inv(Next(s, step, accepts), accepts)
  {
    hide StoreRuns.Inv, StoreRuns.Enabled, StoreRuns.Effect, RowsOk, RowsAfter, RowsForward, Says, Asks, AnswerOk,
      HeldOk;
    StepHolds(s, step, accepts);
    if ActionOf(step).Some? {
      RowsMove(s, ActionOf(step).value, accepts);
      StoreSafety.StepKeepsInv(s.store, ActionOf(step).value, accepts);
      UsedProjects(StoreRuns.Next(s.store, ActionOf(step).value, accepts), accepts);
    } else {
      RowsRest(s.client.rows, s.store.db, s.store.used);
      UsedProjects(s.store, accepts);
    }
    match step
    case Client(v) => RowsOfClient(s.client, v);
    case Transaction(_) =>
    case Answered(call, a, answer) => AnswerIsOk(s.store.db, s.client.rows, call, a, answer);
  }

  lemma RowsOfClient(w: World, v: Event)
    requires !v.Serving? && !v.Processing?
    ensures ProjectEditor.Next(w, v).rows == w.rows
  {
  }

  lemma {:induction false} AlwaysInv(systems: seq<System>, steps: seq<Step>, accepts: StoreRuns.Validator, id: string,
      i: nat)
    requires Run(systems, steps, accepts, id) && i < |systems|
    ensures Inv(systems[i], accepts)
  {
    hide Enabled, Next, Inv;
    if i == 0 {
      StartOk(id, accepts);
    } else {
      AlwaysInv(systems, steps, accepts, id, i - 1);
      StepIsEvent(systems[i - 1], steps[i - 1], accepts);
    }
  }

  lemma StartOk(id: string, accepts: StoreRuns.Validator)
    ensures Inv(System(StoreRuns.Initial, Start(id)), accepts)
  {
    StoreSafety.InitialInv(accepts);
    hide StoreRuns.Inv;
  }

  function Clients(systems: seq<System>): (r: seq<World>)
    ensures |r| == |systems| && forall i | 0 <= i < |r| :: r[i] == systems[i].client
  {
    seq(|systems|, i requires 0 <= i < |systems| => systems[i].client)
  }

  function Events(systems: seq<System>, steps: seq<Step>): (r: seq<Event>)
    requires |systems| == |steps| + 1
    ensures |r| == |steps| && forall i | 0 <= i < |r| :: r[i] == EventOf(systems[i], steps[i])
  {
    seq(|steps|, i requires 0 <= i < |steps| => EventOf(systems[i], steps[i]))
  }

  /** THE SYSTEM SIMULATES THE EDITOR. Seen from the editor, a run of the system is one of its own runs. */
  lemma RunOfClient(systems: seq<System>, steps: seq<Step>, accepts: StoreRuns.Validator, id: string)
    requires Run(systems, steps, accepts, id)
    ensures |systems| == |steps| + 1
    ensures ProjectEditorRuns.Run(Clients(systems), Events(systems, steps), id)
  {
    hide ProjectEditor.Enabled, Enabled, Inv, EventOf, ProjectEditor.Next;
    var events := Events(systems, steps);
    forall i | 0 <= i < |steps|
      ensures ProjectEditor.Enabled(systems[i].client, events[i])
      ensures systems[i + 1].client == ProjectEditor.Next(systems[i].client, events[i])
    {
      AlwaysInv(systems, steps, accepts, id, i);
      StepIsEvent(systems[i], steps[i], accepts);
    }
  }

  // ---- what holds for the system --------------------------------------------

  /** Between any two points of a run the rows move forward, and a deleted project stays deleted. */
  lemma {:induction false} RowsNeverBack(systems: seq<System>, steps: seq<Step>, accepts: StoreRuns.Validator,
      id: string, i: nat, j: nat)
    requires Run(systems, steps, accepts, id) && i <= j < |systems|
    ensures RowsForward(systems[i].client.rows, systems[j].client.rows)
    decreases j
  {
    hide Enabled, Next, EventOf;
    if i < j {
      RowsNeverBack(systems, steps, accepts, id, i, j - 1);
      AlwaysInv(systems, steps, accepts, id, j - 1);
      StepRows(systems[j - 1], steps[j - 1], accepts);
    }
  }

  lemma StepRows(s: System, step: Step, accepts: StoreRuns.Validator)
    requires Inv(s, accepts) && Enabled(s, step, accepts)
    ensures RowsForward(s.client.rows, Next(s, step, accepts).client.rows)
  {
    hide StoreRuns.Inv, StoreRuns.Enabled, StoreRuns.Effect, RowsAfter, Says, Asks;
    StepIsEvent(s, step, accepts);
    if step.Client? {
      RowsOfClient(s.client, step.event);
    }
  }

  /** In the system of editor and store the shown draft and served numbers never go backwards within a generation,
      whoever else writes. */
  lemma ShownNeverBackwards(systems: seq<System>, steps: seq<Step>, accepts: StoreRuns.Validator, id: string, i: nat,
      j: nat)
    requires Run(systems, steps, accepts, id) && i <= j < |systems|
    requires var (e, e') := (systems[i].client.e, systems[j].client.e); e.generation == e'.generation && e.project.Some?
    ensures systems[j].client.e.project.Some?
    ensures NotBehind(systems[i].client.e.project.value, systems[j].client.e.project.value)
  {
    hide Run, ProjectEditorRuns.Run;
    RunOfClient(systems, steps, accepts, id);
    ProjectEditorRuns.NeverBackwards(Clients(systems), Events(systems, steps), id, i, j);
  }

  /** Nor are they ever ahead of the store, as long as the project is in it. */
  lemma ShownNeverAhead(systems: seq<System>, steps: seq<Step>, accepts: StoreRuns.Validator, id: string, i: nat)
    requires Run(systems, steps, accepts, id) && i < |systems| && systems[i].client.e.project.Some?
    requires systems[i].client.e.project.value.id in systems[i].store.db.projects
    ensures var (p, db) := (systems[i].client.e.project.value, systems[i].store.db);
            && StoreRuns.PointersOk(db, p.id)
            && p.current <= StoreSafety.CurrentNo(db, p.id) && p.served <= StoreSafety.ServedNo(db, p.id)
  {
    hide Run, ProjectEditorRuns.Run, StoreRuns.Inv, RowIn;
    RunOfClient(systems, steps, accepts, id);
    ProjectEditorRuns.AlwaysInv(Clients(systems), Events(systems, steps), id, i);
    AlwaysInv(systems, steps, accepts, id, i);
    var p, db := systems[i].client.e.project.value, systems[i].store.db;
    BelowOf(systems[i].client);
    UsedProjects(systems[i].store, accepts);
    LiveRow(db, p.id);
  }

  lemma BelowOf(w: World)
    requires ProjectEditor.Inv(w) && w.e.project.Some?
    ensures BelowRow(w.e.project.value, w.rows)
  {
  }

  /** NOTHING IS OVERWRITTEN. Whenever a save is answered with a project, it was made on top of exactly the revision
      that the user was editing, and the project holds the user's bytes. */
  lemma SavedOnTop(systems: seq<System>, steps: seq<Step>, accepts: StoreRuns.Validator, id: string, i: nat)
    requires Run(systems, steps, accepts, id) && i < |steps|
    requires steps[i].Answered? && steps[i].call.SaveCall? && steps[i].answer.Done?
    ensures var (db, edited, p) := (systems[i].store.db, steps[i].call.project, steps[i].answer.project);
            && edited.id in db.projects && StoreRuns.PointersOk(db, edited.id)
            && StoreSafety.CurrentNo(db, edited.id) == edited.current
            && p.id == edited.id && p.source == steps[i].call.source
            && (p.current == edited.current || p.current == edited.current + 1)
  {
    hide Inv, Next, Enabled;
    AlwaysInv(systems, steps, accepts, id, i);
    SaveAnswered(systems[i], steps[i].call, steps[i].done, steps[i].answer.project, accepts);
  }

  lemma SaveAnswered(s: System, call: Call, a: Option<Action>, p: Project, accepts: StoreRuns.Validator)
    requires Inv(s, accepts) && Enabled(s, Answered(call, a, Done(p)), accepts) && call.SaveCall?
    ensures call.project.id in s.store.db.projects && StoreRuns.PointersOk(s.store.db, call.project.id)
    ensures StoreSafety.CurrentNo(s.store.db, call.project.id) == call.project.current
    ensures p.id == call.project.id && p.source == call.source
    ensures p.current == call.project.current || p.current == call.project.current + 1
  {
    var db, t := s.store.db, a.value.ticket;
    UsedProjects(s.store, accepts);
    assert Known(s.store, call.project) by {
      assert Pending(s.client, call);
    }
    hide StoreRuns.Inv, RowsOk, HeldOk;
    SaveReturned(db, t.project, t.expected, a.value.revisionId, t.source, a.value.validation, a.value.now, p);
  }

  lemma SaveReturned(db: Store.Db, id: string, expected: string, revisionId: string, source: seq<byte>,
      validation: string, now: int, p: Project)
    requires StoreRuns.Linear(db)
    requires var (db', r) := Store.Save(db, id, expected, revisionId, source, validation, now);
             r.Ok? && Renders(db', r.value.view, p)
    ensures id in db.projects && StoreRuns.PointersOk(db, id) && db.projects[id].current == Some(expected)
    ensures p.id == id && p.source == source
    ensures var no := StoreSafety.CurrentNo(db, id); p.current == no || p.current == no + 1
  {
    hide StoreRuns.Linear, Store.NextNumber, Store.NumberTaken;
    if id in db.projects {
      StoreRuns.ServedOf(db, id);
      StoreSafety.SaveNumber(db, id, expected, revisionId, source, validation, now);
    }
  }
}
