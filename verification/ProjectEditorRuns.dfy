/** Every interleaving of renders, effects, edits, writes and late answers around the editor
    (`useProject.ts`), and what none of them can break. */
module ProjectEditorRuns {
  import opened Wrappers
  import opened ProjectEditor

  ghost predicate Run(worlds: seq<World>, events: seq<Event>, id: string) {
    && |worlds| == |events| + 1 && worlds[0] == Start(id)
    && forall i | 0 <= i < |events| :: Enabled(worlds[i], events[i]) && worlds[i + 1] == Next(worlds[i], events[i])
  }

  // ---- each event keeps the invariant ---------------------------------------

  lemma RenderKeeps(w: World, id: string)
    requires Inv(w)
    ensures Inv(Next(w, Rendering(id)))
  {
    var w' := Next(w, Rendering(id));
    hide SingleFlight;
    assert forall c :: Pending(w', c) <==> Pending(w, c);
    SameCalls(w, w');
  }

  /** Single flight is a matter of the requests alone. */
  lemma SameCalls(w: World, w': World)
    requires SingleFlight(w) && w'.calls == w.calls && w'.answers == w.answers
    ensures SingleFlight(w')
  {
    assert forall c :: Pending(w', c) <==> Pending(w, c);
  }

  lemma EditKeeps(w: World, bytes: seq<byte>)
    requires Inv(w)
    ensures Inv(Next(w, Editing(bytes)))
  {
    var w' := Next(w, Editing(bytes));
    hide SingleFlight;
    assert forall c :: Pending(w', c) <==> Pending(w, c);
    SameCalls(w, w');
  }

  lemma ServeKeeps(w: World, rows: map<string, Row>)
    requires Inv(w) && RowsForward(w.rows, rows)
    ensures Inv(Next(w, Serving(rows)))
  {
    var w' := Next(w, Serving(rows));
    hide SingleFlight, CallOk, EditorOk;
    assert forall c :: Pending(w', c) <==> Pending(w, c);
    SameCalls(w, w');
  }

  /** A request that is new and not gated, or gated in a generation that has none pending. */
  ghost predicate NewCall(w: World, call: Call) {
    && !Pending(w, call)
    && (Gated(call) ==> forall c | Pending(w, c) && Gated(c) :: c.token.generation != call.token.generation)
  }

  lemma AddedCall(w: World, w': World, call: Call)
    requires SingleFlight(w) && w'.calls == w.calls + {call} && w'.answers == w.answers && NewCall(w, call)
    ensures SingleFlight(w') && forall c :: Pending(w', c) <==> Pending(w, c) || c == call
  {
    assert forall c :: Pending(w', c) <==> Pending(w, c) || c == call;
    hide Pending;
    assert forall a | a in w.answers :: a.0 != call by {
      forall a | a in w.answers
        ensures a.0 != call
      {
        AnswerPending(w, a);
      }
    }
  }

  lemma AnswerPending(w: World, a: (Call, Answer))
    requires a in w.answers
    ensures Pending(w, a.0)
  {
    assert (a.0, a.1) in w.answers;
  }

  lemma EffectKeeps(w: World)
    requires Inv(w)
    ensures Inv(Next(w, Effecting))
  {
    var w' := Next(w, Effecting);
    var call := RunEffect(w.e).1;
    assert NewCall(w, call) by {
      hide SingleFlight, Pending;
      assert Pending(w, call) ==> CallOk(w.e, call);
    }
    hide SingleFlight, NewCall, Pending;
    AddedCall(w, w', call);
    forall c | Pending(w', c)
      ensures CallOk(w'.e, c)
    {
      assert Pending(w, c) ==> CallOk(w.e, c);
    }
    forall a | a in w'.answers
      ensures AnswerFresh(w'.e, w'.rows, a.0, a.1)
    {
      assert AnswerFresh(w.e, w.rows, a.0, a.1);
    }
  }

  /** A gated request can start only when none of this generation is pending. */
  lemma GateIsFree(w: World, call: Call)
    requires Inv(w) && w.e.gate.active.None? && Gated(call) && call.token.generation == w.e.generation
    requires call.token.serial == w.e.gate.made
    ensures NewCall(w, call)
  {
    hide SingleFlight, Pending, EditorOk, AnswerFresh;
    assert Pending(w, call) ==> CallOk(w.e, call);
    forall c | Pending(w, c) && Gated(c)
      ensures c.token.generation != call.token.generation
    {
      assert CallOk(w.e, c);
    }
  }

  /** The gate is taken by the new request and nothing else about the editor changes but a busy flag. */
  lemma GatedKeeps(w: World, w': World, call: Call)
    requires Inv(w) && w.e.gate.active.None? && w.e.project.Some? && Gated(call)
    requires call.token.generation == w.e.generation && call.token.serial == w.e.gate.made
    requires w' == w.(e := w'.e, calls := w.calls + {call})
    requires w'.e == w.e.(gate := w'.e.gate, saving := w'.e.saving, publishing := w'.e.publishing)
    requires w'.e.gate == Gate(w.e.gate.generation, Some(call.token), w.e.gate.made + 1)
    requires EditorOk(w'.e) && CallOk(w'.e, call)
    ensures Inv(w')
  {
    GateIsFree(w, call);
    hide SingleFlight, NewCall, Pending, EditorOk;
    AddedCall(w, w', call);
    forall c | Pending(w', c)
      ensures CallOk(w'.e, c)
    {
      if c != call {
        assert CallOk(w.e, c);
        StillOk(w.e, w'.e, c);
      }
    }
    forall a | a in w'.answers
      ensures AnswerFresh(w'.e, w'.rows, a.0, a.1)
    {
      assert AnswerFresh(w.e, w.rows, a.0, a.1);
    }
  }

  lemma StillOk(e: Editor, e': Editor, c: Call)
    requires CallOk(e, c) && e.gate.active.None?
    requires e'.generation == e.generation && e'.effectId == e.effectId && e'.project == e.project
             && e'.gate.made >= e.gate.made
    ensures CallOk(e', c)
  {
  }

  lemma SaveKeeps(w: World)
    requires Inv(w)
    ensures Inv(Next(w, ProjectEditor.Event.Saving))
  {
    var w' := Next(w, ProjectEditor.Event.Saving);
    var call := CallSave(w.e).1;
    hide SingleFlight, Pending, AnswerFresh;
    if call.Some? {
      GatedKeeps(w, w', call.value);
    } else {
      assert w' == w;
    }
  }

  lemma PublishKeeps(w: World)
    requires Inv(w)
    ensures Inv(Next(w, ProjectEditor.Event.Publishing))
  {
    var w' := Next(w, ProjectEditor.Event.Publishing);
    var call := CallPublish(w.e).1;
    hide SingleFlight, Pending, AnswerFresh;
    if call.Some? {
      GatedKeeps(w, w', call.value);
    } else {
      assert w' == w;
    }
  }

  lemma RenameKeeps(w: World, name: string)
    requires Inv(w)
    ensures Inv(Next(w, Renaming(name)))
  {
    var w' := Next(w, Renaming(name));
    var call := CallRename(w.e, name, w.serial);
    if call.Some? {
      assert NewCall(w, call.value) by {
        hide SingleFlight;
      }
      hide SingleFlight, NewCall, Pending;
      AddedCall(w, w', call.value);
    } else {
      SameCalls(w, w');
      assert forall c :: Pending(w', c) <==> Pending(w, c);
    }
  }

  lemma ProcessKeeps(w: World, call: Call, answer: Answer, rows: map<string, Row>)
    requires Inv(w) && Enabled(w, Processing(call, answer, rows))
    ensures Inv(Next(w, Processing(call, answer, rows)))
  {
    var w' := Next(w, Processing(call, answer, rows));
    MovedCall(w, w', call, answer);
    assert Pending(w, call);
    hide SingleFlight, Pending, EditorOk;
    forall a | a in w'.answers
      ensures AnswerFresh(w'.e, w'.rows, a.0, a.1)
    {
      if a != (call, answer) {
        assert AnswerFresh(w.e, w.rows, a.0, a.1);
      } else {
        JustAnswered(w, call, answer, rows);
      }
    }
  }

  lemma MovedCall(w: World, w': World, call: Call, answer: Answer)
    requires SingleFlight(w) && call in w.calls && w'.calls == w.calls - {call}
             && w'.answers == w.answers + {(call, answer)}
    ensures SingleFlight(w') && forall c :: Pending(w', c) <==> Pending(w, c)
  {
    forall c
      ensures Pending(w', c) <==> Pending(w, c)
    {
      if c == call {
        assert (call, answer) in w'.answers;
      } else if Pending(w, c) && c !in w.calls {
        var a :| (c, a) in w.answers;
        assert (c, a) in w'.answers;
      }
    }
  }

  /** The service answers with rows at least as new as those the shown project came from. */
  lemma JustAnswered(w: World, call: Call, answer: Answer, rows: map<string, Row>)
    requires Inv(w) && call in w.calls && RowsForward(w.rows, rows) && AnswerOk(rows, call, answer)
    ensures AnswerFresh(w.e, rows, call, answer)
  {
    assert Pending(w, call);
    assert CallOk(w.e, call);
  }

  // ---- delivery -------------------------------------------------------------

  lemma RemovedAnswer(w: World, w': World, call: Call, answer: Answer)
    requires SingleFlight(w) && (call, answer) in w.answers && w'.calls == w.calls
             && w'.answers == w.answers - {(call, answer)}
    ensures SingleFlight(w') && forall c :: Pending(w', c) <==> Pending(w, c) && c != call
  {
    forall c
      ensures Pending(w', c) <==> Pending(w, c) && c != call
    {
      if Pending(w, c) && c != call && c !in w.calls {
        var a :| (c, a) in w.answers;
        assert (c, a) in w'.answers;
      }
    }
  }

  /** Delivery changes the editor only for a request of the current generation, and then as it should. */
  lemma DeliverEditor(w: World, call: Call, answer: Answer)
    requires Inv(w) && (call, answer) in w.answers
    ensures var e' := Deliver(w.e, call, answer);
            && EditorOk(e') && e'.generation == w.e.generation && e'.effectId == w.e.effectId
               && e'.gate.made == w.e.gate.made
            && (e'.project.Some? ==> BelowRow(e'.project.value, w.rows))
            && (w.e.project.Some? ==> e'.project.Some? && NotBehind(w.e.project.value, e'.project.value))
            && (e'.gate.active == w.e.gate.active || (Gated(call) && w.e.gate.active == Some(call.token)))
            && (e'.project.Some? && w.e.project.None? ==> call == LoadCall(w.e.generation, e'.project.value.id))
  {
    hide SingleFlight;
    AnswerPending(w, (call, answer));
    hide Pending;
    assert CallOk(w.e, call) && AnswerFresh(w.e, w.rows, call, answer);
  }

  lemma DeliverKeeps(w: World, call: Call, answer: Answer)
    requires Inv(w) && (call, answer) in w.answers
    ensures Inv(Next(w, Delivering(call, answer)))
  {
    var w' := Next(w, Delivering(call, answer));
    RemovedAnswer(w, w', call, answer);
    DeliverEditor(w, call, answer);
    AnswerPending(w, (call, answer));
    hide Deliver, EditorOk, Pending;
    forall c | Pending(w', c)
      ensures CallOk(w'.e, c)
    {
      OtherCallOk(w, w'.e, call, c);
    }
    forall a | a in w'.answers
      ensures AnswerFresh(w'.e, w'.rows, a.0, a.1)
    {
      AnswerPending(w, a);
      OtherAnswerFresh(w, call, answer, a.0, a.1);
    }
  }

  lemma OtherCallOk(w: World, e': Editor, call: Call, c: Call)
    requires Inv(w) && Pending(w, call) && Pending(w, c) && c != call
    requires e'.generation == w.e.generation && e'.effectId == w.e.effectId && e'.gate.made == w.e.gate.made
    requires e'.gate.active == w.e.gate.active || (Gated(call) && w.e.gate.active == Some(call.token))
    requires e'.project.Some? && w.e.project.None? ==> call == LoadCall(w.e.generation, e'.project.value.id)
    requires w.e.project.Some? ==> e'.project.Some?
    ensures CallOk(e', c)
  {
    hide EditorOk, AnswerFresh, Pending;
    assert CallOk(w.e, c) && CallOk(w.e, call);
  }

  lemma OtherAnswerFresh(w: World, call: Call, answer: Answer, c: Call, a: Answer)
    requires Inv(w) && (call, answer) in w.answers && (c, a) in w.answers && c != call
    ensures AnswerFresh(Deliver(w.e, call, answer), w.rows, c, a)
  {
    AnswerPending(w, (call, answer));
    AnswerPending(w, (c, a));
    assert AnswerFresh(w.e, w.rows, c, a) && AnswerFresh(w.e, w.rows, call, answer);
    assert CallOk(w.e, c) && CallOk(w.e, call);
    hide Pending;
  }

  lemma StepKeeps(w: World, v: Event)
    requires Inv(w) && Enabled(w, v)
    ensures Inv(Next(w, v))
  {
    hide Inv, Next;
    match v
    case Rendering(id) => RenderKeeps(w, id);
    case Effecting => EffectKeeps(w);
    case Editing(bytes) => EditKeeps(w, bytes);
    case Saving => SaveKeeps(w);
    case Publishing => PublishKeeps(w);
    case Renaming(name) => RenameKeeps(w, name);
    case Serving(rows) => ServeKeeps(w, rows);
    case Processing(call, answer, rows) => ProcessKeeps(w, call, answer, rows);
    case Delivering(call, answer) => DeliverKeeps(w, call, answer);
  }

  lemma {:induction false} AlwaysInv(worlds: seq<World>, events: seq<Event>, id: string, i: nat)
    requires Run(worlds, events, id) && i < |worlds|
    ensures Inv(worlds[i])
  {
    hide Inv, Next, Enabled, Start;
    if i == 0 {
      StartInv(id);
    } else {
      AlwaysInv(worlds, events, id, i - 1);
      StepKeeps(worlds[i - 1], events[i - 1]);
    }
  }

  // ---- what follows ---------------------------------------------------------

  /** In every reachable state at most one save or publish of a generation is under way. */
  lemma OneWriteInFlight(worlds: seq<World>, events: seq<Event>, id: string, i: nat, c: Call, d: Call)
    requires Run(worlds, events, id) && i < |worlds|
    requires Pending(worlds[i], c) && Pending(worlds[i], d) && Gated(c) && Gated(d)
             && c.token.generation == d.token.generation
    ensures c == d
  {
    hide Next, Enabled, Pending;
    AlwaysInv(worlds, events, id, i);
    FlightOf(worlds[i], c, d);
  }

  lemma FlightOf(w: World, c: Call, d: Call)
    requires Inv(w) && Pending(w, c) && Pending(w, d) && Gated(c) && Gated(d)
             && c.token.generation == d.token.generation
    ensures c == d
  {
  }

  function GenerationOf(call: Call): nat {
    match call
    case LoadCall(generation, _) => generation
    case SaveCall(token, _, _) => token.generation
    case PublishCall(token, _) => token.generation
    case RenameCall(generation, _, _, _) => generation
  }

  /** An answer is applied only to the generation and the project that asked for it; any other changes
      nothing the user sees. After a write or a rename that also is the project of the latest render. */
  lemma AppliedToItsOwn(worlds: seq<World>, events: seq<Event>, id: string, i: nat)
    requires Run(worlds, events, id) && i < |events| && events[i].Delivering?
    ensures var (e, e', call) := (worlds[i].e, worlds[i + 1].e, events[i].call);
            && (GenerationOf(call) != e.generation ==> e' == e)
            && (e'.project != e.project || e'.working != e.working ==>
                  && GenerationOf(call) == e.generation && e.effectId == Some(ProjectOf(call))
                  && e'.project.Some? && e'.project.value.id == ProjectOf(call)
                  && (!call.LoadCall? ==> e.activeId == ProjectOf(call)))
  {
    hide Pending, Enabled, Next;
    var w, call, answer := worlds[i], events[i].call, events[i].answer;
    AlwaysInv(worlds, events, id, i);
    assert Enabled(w, events[i]) && worlds[i + 1] == Next(w, events[i]);
    DeliveryIs(w, call, answer);
    AppliesToOwn(w, call, answer);
  }

  lemma DeliveryIs(w: World, call: Call, answer: Answer)
    ensures Next(w, Delivering(call, answer)).e == Deliver(w.e, call, answer)
    ensures Enabled(w, Delivering(call, answer)) ==> (call, answer) in w.answers
  {
  }

  lemma AppliesToOwn(w: World, call: Call, answer: Answer)
    requires Inv(w) && (call, answer) in w.answers
    ensures var (e, e') := (w.e, Deliver(w.e, call, answer));
            && (GenerationOf(call) != e.generation ==> e' == e)
            && (e'.project != e.project || e'.working != e.working ==>
                  && GenerationOf(call) == e.generation && e.effectId == Some(ProjectOf(call))
                  && e'.project.Some? && e'.project.value.id == ProjectOf(call)
                  && (!call.LoadCall? ==> e.activeId == ProjectOf(call)))
  {
    hide SingleFlight;
    AnswerPending(w, (call, answer));
    hide Pending;
    assert CallOk(w.e, call) && AnswerFresh(w.e, w.rows, call, answer);
  }

  /** A save or a publish never changes the local name, a publish never the bytes being edited, and a
      rename nothing but the name and its time. An applied save puts the saved bytes in hand. */
  lemma WhatAnswersChange(e: Editor, call: Call, answer: Answer)
    requires e.project.Some?
    ensures var e' := Deliver(e, call, answer);
            && e'.project.Some?
            && (Gated(call) ==> e'.project.value.name == e.project.value.name)
            && (call.PublishCall? ==> e'.working == e.working)
            && (call.RenameCall? ==>
                  && e'.working == e.working && e'.project.value.id == e.project.value.id
                  && e'.project.value.current == e.project.value.current
                     && e'.project.value.served == e.project.value.served
                  && e'.project.value.source == e.project.value.source)
            && (call.SaveCall? ==> e' == e.(gate := e'.gate, saving := e'.saving)
                                   || (answer.Done? && e'.working == answer.project.source))
  {
  }

  /** The answer to a rename of the shown project puts the new name and time on screen; any other changes nothing. */
  lemma RenameShows(e: Editor, call: Call, answer: Answer)
    requires call.RenameCall?
    ensures var e' := Deliver(e, call, answer);
            if answer.Renamed? && call.generation == e.generation && call.id == e.activeId && e.project.Some?
               && e.project.value.id == call.id
            then
              && e'.project.Some? && e'.project.value.name == answer.name
              && e'.project.value.updatedAt == answer.updatedAt
              && e' == e.(project := e'.project)
            else e' == e
  {
  }

  /** A load that fails says so, and one that finds nothing says that; nothing else changes. */
  lemma LoadRefused(e: Editor, call: Call, answer: Answer)
    requires call.LoadCall? && call.generation == e.generation && !answer.Done?
    ensures Deliver(e, call, answer) == e.(status := if answer == NotFound then Missing else LoadFailed)
  {
  }

  // ---- where requests come from ---------------------------------------------

  /** What the user did that sent the request, and what was on screen then. */
  predicate Sent(w: World, v: Event, call: Call) {
    match call
    case LoadCall(generation, id) => v == Effecting && id == w.e.activeId && generation == w.e.generation + 1
    case SaveCall(token, project, source) =>
      && v == Saving && w.e.project == Some(project) && source == w.e.working
      && token.generation == w.e.gate.generation && token.projectId == project.id && w.e.gate.active.None?
    case PublishCall(token, project) =>
      && v == Publishing && w.e.project == Some(project) && project.source == w.e.working
      && token.generation == w.e.gate.generation && token.projectId == project.id && w.e.gate.active.None?
    case RenameCall(generation, id, name, _) =>
      v == Renaming(name) && generation == w.e.generation && w.e.project.Some? && w.e.project.value.id == id
  }

  lemma NewPending(w: World, v: Event, call: Call)
    requires Enabled(w, v) && Pending(Next(w, v), call)
    ensures Pending(w, call) || Sent(w, v, call)
  {
    hide Deliver;
    var w' := Next(w, v);
    if call !in w'.calls {
      var answer :| (call, answer) in w'.answers;
      assert (call, answer) in w.answers || call in w.calls;
    }
  }

  /** WHAT IS SENT IS WHAT WAS SHOWN. Every request under way was sent by the user's own action, a save with the bytes
      being edited then, a publish only when they were those of the project, each with the project then shown. */
  lemma {:induction false} RequestsAccounted(worlds: seq<World>, events: seq<Event>, id: string, i: nat, call: Call)
    requires Run(worlds, events, id) && i < |worlds| && Pending(worlds[i], call)
    ensures exists k | 0 <= k < i :: Sent(worlds[k], events[k], call)
  {
    hide Enabled, Next, Sent, Pending;
    if i == 0 {
      NothingPending(id, call);
    } else {
      NewPending(worlds[i - 1], events[i - 1], call);
      if Pending(worlds[i - 1], call) {
        RequestsAccounted(worlds, events, id, i - 1, call);
      }
    }
  }

  lemma NothingPending(id: string, call: Call)
    ensures !Pending(Start(id), call)
  {
  }

  /** A save is sent whenever a project is shown and no write is under way, a publish only when moreover nothing is
      unsaved, and editing puts just the typed bytes in hand. */
  lemma WhenSent(e: Editor, bytes: seq<byte>)
    ensures CallSave(e).1.Some? <==> e.project.Some? && e.gate.active.None?
    ensures CallPublish(e).1.Some? <==> e.project.Some? && e.gate.active.None? && e.working == e.project.value.source
    ensures Edit(e, bytes).working == bytes && Edit(e, bytes) == e.(working := Edit(e, bytes).working)
  {
  }

  /** And nothing that is meant for the user is dropped: an answer to the current generation's own request, with
      its project still on screen, is adopted and frees the gate. */
  lemma CurrentIsAdopted(w: World, call: Call, p: Project)
    requires Inv(w) && (call, Done(p)) in w.answers && GenerationOf(call) == w.e.generation && !call.RenameCall?
    requires w.e.activeId == ProjectOf(call)
    ensures var (e, e') := (w.e, Deliver(w.e, call, Done(p)));
            && (call.LoadCall? ==> e' == e.(project := Some(p), working := p.source, status := Ready))
            && (Gated(call) ==>
                  && e.project.Some? && e'.project == Some(p.(name := e.project.value.name))
                  && e'.gate.active.None? && !e'.saving && !e'.publishing
                  && e'.working == if call.SaveCall? then p.source else e.working)
  {
    hide SingleFlight;
    AnswerPending(w, (call, Done(p)));
    hide Pending;
    assert CallOk(w.e, call) && AnswerFresh(w.e, w.rows, call, Done(p));
  }

  /** While a write of the current generation is under way its busy flag is up, and no other write starts. */
  lemma BusyMeansBusy(worlds: seq<World>, events: seq<Event>, id: string, i: nat, call: Call)
    requires Run(worlds, events, id) && i < |worlds|
    requires Pending(worlds[i], call) && Gated(call) && call.token.generation == worlds[i].e.generation
    ensures var e := worlds[i].e;
            && (if call.SaveCall? then e.saving && !e.publishing else e.publishing && !e.saving)
            && CallSave(e).1.None? && CallPublish(e).1.None?
  {
    hide Next, Enabled, Pending;
    AlwaysInv(worlds, events, id, i);
    BusyOf(worlds[i], call);
  }

  lemma BusyOf(w: World, call: Call)
    requires Inv(w) && Pending(w, call) && Gated(call) && call.token.generation == w.e.generation
    ensures var e := w.e;
            && (if call.SaveCall? then e.saving && !e.publishing else e.publishing && !e.saving)
            && CallSave(e).1.None? && CallPublish(e).1.None?
  {
    hide SingleFlight, Pending, AnswerFresh;
    assert CallOk(w.e, call);
  }

  lemma StepForward(w: World, v: Event)
    requires Inv(w) && Enabled(w, v)
    ensures var e' := Next(w, v).e;
            && w.e.generation <= e'.generation
            && (e'.generation == w.e.generation && w.e.project.Some? ==>
                  e'.project.Some? && NotBehind(w.e.project.value, e'.project.value))
  {
    hide SingleFlight, Pending, AnswerFresh, CallOk, EditorOk;
    if v.Delivering? {
      hide Deliver;
      DeliverEditor(w, v.call, v.answer);
    }
  }

  lemma {:induction false} GenerationsGrow(worlds: seq<World>, events: seq<Event>, id: string, i: nat, j: nat)
    requires Run(worlds, events, id) && i <= j < |worlds|
    ensures worlds[i].e.generation <= worlds[j].e.generation
    decreases j
  {
    hide Inv, Next, Enabled, Start;
    if i < j {
      GenerationsGrow(worlds, events, id, i, j - 1);
      AlwaysInv(worlds, events, id, j - 1);
      StepForward(worlds[j - 1], events[j - 1]);
    }
  }

  /** Within a generation the local draft and served revision numbers never go backwards, whatever order
      answers arrive in. */
  lemma {:induction false} NeverBackwards(worlds: seq<World>, events: seq<Event>, id: string, i: nat, j: nat)
    requires Run(worlds, events, id) && i <= j < |worlds|
    requires worlds[i].e.generation == worlds[j].e.generation && worlds[i].e.project.Some?
    ensures worlds[j].e.project.Some? && NotBehind(worlds[i].e.project.value, worlds[j].e.project.value)
    decreases j
  {
    hide Inv, Next, Enabled, Start;
    if i < j {
      GenerationsGrow(worlds, events, id, i, j - 1);
      AlwaysInv(worlds, events, id, j - 1);
      StepForward(worlds[j - 1], events[j - 1]);
      NeverBackwards(worlds, events, id, i, j - 1);
    }
  }
}
