/** The editor of one project (`useProject.ts`): the single-flight gate for writes, and the hook as a state
    machine whose responses arrive late, out of order, or after the project has been switched. */
module ProjectEditor {
  import opened Wrappers
  import Utf8

  type byte = Utf8.byte

  // ---- the mutation gate ----------------------------------------------------

  datatype Kind = SaveKind | PublishKind

  /** A token is an object of its own; `serial` is its identity. */
  datatype Token = Token(kind: Kind, projectId: string, generation: nat, serial: nat)

  datatype Gate = Gate(generation: nat, active: Option<Token>, made: nat)

  function Invalidate(gate: Gate): Gate {
    gate.(generation := gate.generation + 1, active := None)
  }

  function Begin(gate: Gate, kind: Kind, projectId: string): (Gate, Option<Token>) {
    if gate.active.Some? then (gate, None)
    else
      var token := Token(kind, projectId, gate.generation, gate.made);
      (Gate(gate.generation, Some(token), gate.made + 1), Some(token))
  }

  predicate IsCurrent(gate: Gate, token: Token) {
    gate.active == Some(token) && token.generation == gate.generation
  }

  function Finish(gate: Gate, token: Token): (Gate, bool) {
    if !IsCurrent(gate, token) then (gate, false) else (gate.(active := None), true)
  }

  class MutationGate {
    var generation: nat
    var active: Option<Token>
    var made: nat

    function Value(): Gate
      reads this
    {
      Gate(generation, active, made)
    }

    constructor ()
      ensures Value() == Gate(0, None, 0)
    {
      generation, active, made := 0, None, 0;
    }

    method InvalidateAll()
      modifies this
      ensures Value() == Invalidate(old(Value()))
    {
      generation := generation + 1;
      active := None;
    }

    method BeginWrite(kind: Kind, projectId: string) returns (token: Option<Token>)
      modifies this
      ensures (Value(), token) == Begin(old(Value()), kind, projectId)
    {
      if active.Some? {
        return None;
      }
      var made' := Token(kind, projectId, generation, made);
      made := made + 1;
      active := Some(made');
      token := active;
    }

    method FinishWrite(token: Token) returns (ok: bool)
      modifies this
      ensures (Value(), ok) == Finish(old(Value()), token)
    {
      if active != Some(token) || token.generation != generation {
        return false;
      }
      active := None;
      ok := true;
    }
  }

  // ---- the hook -------------------------------------------------------------

  /** The project as the service returns it. The editor only ever looks at the two revision ids, which it sends back;
      `current` and `served` are the numbers they stand for. */
  datatype Project = Project(
    id: string,
    name: string,
    updatedAt: int,
    currentId: string,
    servedId: string,
    current: nat,
    served: nat,
    source: seq<byte>)

  datatype Status = Loading | Missing | LoadFailed | Ready

  /** `activeId` is the id of the latest render, `effectId` the one the latest effect ran for. */
  datatype Editor = Editor(
    activeId: string,
    effectId: Option<string>,
    generation: nat,
    gate: Gate,
    status: Status,
    project: Option<Project>,
    working: seq<byte>,
    saving: bool,
    publishing: bool)

  /** A request with what its continuation has captured. */
  datatype Call =
    | LoadCall(generation: nat, id: string)
    | SaveCall(token: Token, project: Project, source: seq<byte>)
    | PublishCall(token: Token, project: Project)
    | RenameCall(generation: nat, id: string, name: string, serial: nat)

  datatype Answer = Failed | NotFound | Done(project: Project) | Renamed(name: string, updatedAt: int)

  function Mounted(id: string): Editor {
    Editor(id, None, 0, Gate(0, None, 0), Loading, None, [], false, false)
  }

  /** A render with a (possibly new) route id; its effect has not run yet. */
  function Render(e: Editor, id: string): Editor {
    e.(activeId := id)
  }

  /** The effect of the latest render: a new generation, everything reset, a load started. */
  function RunEffect(e: Editor): (Editor, Call) {
    (Editor(e.activeId, Some(e.activeId), e.generation + 1, Invalidate(e.gate), Loading, None, [], false, false),
     LoadCall(e.generation + 1, e.activeId))
  }

  /** The user types, or a structured edit is applied. */
  function Edit(e: Editor, bytes: seq<byte>): Editor {
    e.(working := bytes)
  }

  predicate Dirty(e: Editor) {
    e.project.Some? && e.working != e.project.value.source
  }

  function CallSave(e: Editor): (Editor, Option<Call>) {
    if e.project.None? then (e, None)
    else
      match Begin(e.gate, SaveKind, e.project.value.id)
      case (_, None) => (e, None)
      case (gate, Some(token)) => (e.(gate := gate, saving := true), Some(SaveCall(token, e.project.value, e.working)))
  }

  function CallPublish(e: Editor): (Editor, Option<Call>) {
    if e.project.None? || Dirty(e) then (e, None)
    else
      match Begin(e.gate, PublishKind, e.project.value.id)
      case (_, None) => (e, None)
      case (gate, Some(token)) => (e.(gate := gate, publishing := true), Some(PublishCall(token, e.project.value)))
  }

  function CallRename(e: Editor, name: string, serial: nat): Option<Call> {
    if e.project.None? then None else Some(RenameCall(e.generation, e.project.value.id, name, serial))
  }

  /** The updater that save and publish share: adopt the response but keep the local name. */
  function Adopt(current: Option<Project>, id: string, response: Project): Option<Project> {
    if current.None? || current.value.id != id then current else Some(response.(name := current.value.name))
  }

  predicate MayAdopt(e: Editor, token: Token, project: Project) {
    IsCurrent(e.gate, token) && e.activeId == project.id && token.projectId == project.id
  }

  function Deliver(e: Editor, call: Call, answer: Answer): Editor {
    match call
    case LoadCall(generation, id) =>
      if generation != e.generation then e
      else
        (match answer
         case Done(loaded) => e.(project := Some(loaded), working := loaded.source, status := Ready)
         case NotFound => e.(status := Missing)
         case _ => e.(status := LoadFailed))
    case SaveCall(token, project, _) =>
      var e' := if answer.Done? && MayAdopt(e, token, project)
                then e.(project := Adopt(e.project, project.id, answer.project), working := answer.project.source)
                  else e;
      var (gate, finished) := Finish(e.gate, token);
      e'.(gate := gate, saving := e'.saving && !finished)
    case PublishCall(token, project) =>
      var e' := if answer.Done? && MayAdopt(e, token, project)
                then e.(project := Adopt(e.project, project.id, answer.project)) else e;
      var (gate, finished) := Finish(e.gate, token);
      e'.(gate := gate, publishing := e'.publishing && !finished)
    case RenameCall(generation, id, _, _) =>
      if answer.Renamed? && e.activeId == id && e.generation == generation && e.project.Some?
        && e.project.value.id == id
      then e.(project := Some(e.project.value.(name := answer.name, updatedAt := answer.updatedAt))) else e
  }

  // ---- the world around it --------------------------------------------------

  datatype Row = Row(
    name: string,
    updatedAt: int,
    currentId: string,
    servedId: string,
    current: nat,
    served: nat,
    source: seq<byte>,
    deleted: bool)

  /** The service's rows only move forward, and a deleted project stays deleted. */
  predicate Forward(a: Row, b: Row) {
    b.current >= a.current && b.served >= a.served && (a.deleted ==> b.deleted)
  }

  ghost predicate RowsForward(rows: map<string, Row>, rows': map<string, Row>) {
    forall id | id in rows :: id in rows' && Forward(rows[id], rows'[id])
  }

  function View(id: string, row: Row): Project {
    Project(id, row.name, row.updatedAt, row.currentId, row.servedId, row.current, row.served, row.source)
  }

  predicate Gated(call: Call) {
    call.SaveCall? || call.PublishCall?
  }

  function ProjectOf(call: Call): string {
    match call
    case LoadCall(_, id) => id
    case SaveCall(_, project, _) => project.id
    case PublishCall(_, project) => project.id
    case RenameCall(_, id, _, _) => id
  }

  /** What the service may answer with the rows it leaves behind: a failure, or the project as it is then. */
  predicate AnswerOk(rows: map<string, Row>, call: Call, answer: Answer) {
    match answer
    case Failed => true
    case NotFound => true
    case Renamed(_, _) => call.RenameCall?
    case Done(p) =>
      var id := ProjectOf(call);
      !call.RenameCall? && id in rows && !rows[id].deleted && p == View(id, rows[id])
  }

  /** `calls` are on their way to the service, `answers` on their way back. */
  datatype World = World(e: Editor, rows: map<string, Row>, calls: set<Call>, answers: set<(Call, Answer)>, serial: nat)

  datatype Event =
    | Rendering(id: string)
    | Effecting
    | Editing(bytes: seq<byte>)
    | Saving
    | Publishing
    | Renaming(name: string)
    | Serving(rows: map<string, Row>)
    | Processing(call: Call, answer: Answer, rows: map<string, Row>)
    | Delivering(call: Call, answer: Answer)

  ghost predicate Enabled(w: World, v: Event) {
    match v
    case Effecting => w.e.effectId != Some(w.e.activeId)
    case Serving(rows) => RowsForward(w.rows, rows)
    case Processing(call, answer, rows) => call in w.calls && RowsForward(w.rows, rows) && AnswerOk(rows, call, answer)
    case Delivering(call, answer) => (call, answer) in w.answers
    case _ => true
  }

  function Also(calls: set<Call>, call: Option<Call>): set<Call> {
    if call.Some? then calls + {call.value} else calls
  }

  function Next(w: World, v: Event): World {
    match v
    case Rendering(id) => w.(e := Render(w.e, id))
    case Effecting =>
      var (e, call) := RunEffect(w.e);
      w.(e := e, calls := w.calls + {call})
    case Editing(bytes) => w.(e := Edit(w.e, bytes))
    case Saving =>
      var (e, call) := CallSave(w.e);
      w.(e := e, calls := Also(w.calls, call))
    case Publishing =>
      var (e, call) := CallPublish(w.e);
      w.(e := e, calls := Also(w.calls, call))
    case Renaming(name) => w.(calls := Also(w.calls, CallRename(w.e, name, w.serial)), serial := w.serial + 1)
    case Serving(rows) => w.(rows := rows)
    case Processing(call, answer, rows) =>
      w.(rows := rows, calls := w.calls - {call}, answers := w.answers + {(call, answer)})
    case Delivering(call, answer) => w.(e := Deliver(w.e, call, answer), answers := w.answers - {(call, answer)})
  }

  // ---- the invariant --------------------------------------------------------

  ghost predicate Pending(w: World, call: Call) {
    call in w.calls || exists answer :: (call, answer) in w.answers
  }

  predicate NotBehind(p: Project, q: Project) {
    q.current >= p.current && q.served >= p.served
  }

  predicate BelowRow(p: Project, rows: map<string, Row>) {
    p.id in rows && p.current <= rows[p.id].current && p.served <= rows[p.id].served
  }

  /** The local project belongs to the generation's id, and the flags and the gate say the same. */
  predicate EditorOk(e: Editor) {
    && e.gate.generation == e.generation
    && (e.project.Some? ==> e.effectId == Some(e.project.value.id))
    && (e.gate.active.Some? ==>
          && e.gate.active.value.generation == e.generation && e.gate.active.value.serial < e.gate.made
          && e.project.Some? && e.gate.active.value.projectId == e.project.value.id)
    && (e.saving <==> e.gate.active.Some? && e.gate.active.value.kind == SaveKind)
    && (e.publishing <==> e.gate.active.Some? && e.gate.active.value.kind == PublishKind)
  }

  /** A request of the current generation is for its project; a gated one holds the gate, and a load is
      the first thing to arrive. */
  predicate CallOk(e: Editor, call: Call) {
    match call
    case LoadCall(generation, id) =>
      generation <= e.generation && (generation == e.generation ==> e.effectId == Some(id) && e.project.None?)
    case RenameCall(generation, id, _, _) =>
      generation <= e.generation && (generation == e.generation ==> e.effectId == Some(id))
    case SaveCall(token, project, _) => GatedOk(e, token, project, SaveKind)
    case PublishCall(token, project) => GatedOk(e, token, project, PublishKind)
  }

  predicate GatedOk(e: Editor, token: Token, project: Project, kind: Kind) {
    && token.kind == kind && token.projectId == project.id && token.generation <= e.generation
       && token.serial < e.gate.made
    && (token.generation == e.generation ==> e.gate.active == Some(token))
  }

  /** The answer to a request of the current generation is no older than what is shown. */
  predicate AnswerFresh(e: Editor, rows: map<string, Row>, call: Call, answer: Answer) {
    answer.Done? ==>
      && answer.project.id == ProjectOf(call) && BelowRow(answer.project, rows)
      && (Gated(call) && call.token.generation == e.generation && e.project.Some? ==>
          NotBehind(e.project.value, answer.project))
  }

  /** One request, one answer; one gated request per generation. */
  ghost predicate SingleFlight(w: World) {
    && (forall a, b | a in w.answers && b in w.answers && a.0 == b.0 :: a == b)
    && (forall a | a in w.answers :: a.0 !in w.calls)
    && (forall c, d | Pending(w, c) && Pending(w, d) && Gated(c) && Gated(d)
        && c.token.generation == d.token.generation :: c == d)
  }

  ghost predicate Inv(w: World) {
    && EditorOk(w.e)
    && (w.e.project.Some? ==> BelowRow(w.e.project.value, w.rows))
    && (forall c | Pending(w, c) :: CallOk(w.e, c))
    && (forall a | a in w.answers :: AnswerFresh(w.e, w.rows, a.0, a.1))
    && (forall c | Pending(w, c) && c.RenameCall? :: c.serial < w.serial)
    && SingleFlight(w)
  }

  function Start(id: string): World {
    World(Mounted(id), map[], {}, {}, 0)
  }

  lemma StartInv(id: string)
    ensures Inv(Start(id))
  {
  }
}
