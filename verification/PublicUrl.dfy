/** The public URL (`settings.rs`, `tokens.rs`, `state.rs`): stored in a row, cached in memory behind a
    read-write lock. Updates hold the lock for writing over both; creating a token holds it for reading until
    its row is committed. Any number of both, interleaved step by step, across any number of restarts. */
module PublicUrl {
  import opened Wrappers

  /** The normal form of a URL, or None for one that is refused. */
  type Normalizer = string -> Option<string>

  /** An update on its way: it waits for the lock, holds it, has stored its row, or is over. */
  datatype Update =
    | WaitingWrite(url: string)
    | Holding(url: string)
    | Stored(url: string)
    | Updated(url: string)
    | Failed(url: string)

  /** A token creation on its way: waiting, holding the lock for reading, with its URL base composed, or over. */
  datatype Creation =
    | WaitingRead
    | Reading
    | Composed(url: string)
    | Created(url: string, stored: string)
    | Rejected

  /** While the process is down only the row exists. */
  datatype World = World(
    up: bool,
    memory: string,
    row: Option<string>,
    updates: map<nat, Update>,
    creations: map<nat, Creation>)

  const Installed: World := World(false, "", None, map[], map[])

  predicate HoldsWrite(u: Update) {
    u.Holding? || u.Stored?
  }

  predicate HoldsRead(c: Creation) {
    c.Reading? || c.Composed?
  }

  predicate WriteLocked(w: World) {
    exists i | i in w.updates :: HoldsWrite(w.updates[i])
  }

  predicate ReadLocked(w: World) {
    exists i | i in w.creations :: HoldsRead(w.creations[i])
  }

  datatype Step =
    | Boot(configured: string)
    | Crash
    | RequestUpdate(i: nat, input: string)
    | AcquireWrite(i: nat)
    | StoreRow(i: nat)
    | StoreFails(i: nat)
    | Assign(i: nat)
    | RequestToken(i: nat)
    | AcquireRead(i: nat)
    | Compose(i: nat)
    | Commit(i: nat)
    | CommitFails(i: nat)

  predicate Enabled(w: World, s: Step) {
    match s
    case Boot(_) => !w.up
    case Crash => w.up
    case RequestUpdate(i, _) => w.up && i !in w.updates
    case AcquireWrite(i) => w.up && i in w.updates && w.updates[i].WaitingWrite? && !WriteLocked(w) && !ReadLocked(w)
    case StoreRow(i) => w.up && i in w.updates && w.updates[i].Holding?
    case StoreFails(i) => w.up && i in w.updates && w.updates[i].Holding?
    case Assign(i) => w.up && i in w.updates && w.updates[i].Stored?
    case RequestToken(i) => w.up && i !in w.creations
    case AcquireRead(i) => w.up && i in w.creations && w.creations[i].WaitingRead? && !WriteLocked(w)
    case Compose(i) => w.up && i in w.creations && w.creations[i].Reading?
    case Commit(i) => w.up && i in w.creations && w.creations[i].Composed? && w.row.Some?
    case CommitFails(i) => w.up && i in w.creations && HoldsRead(w.creations[i])
  }

  function SetUpdate(w: World, i: nat, u: Update): World {
    w.(updates := w.updates[i := u])
  }

  function SetCreation(w: World, i: nat, c: Creation): World {
    w.(creations := w.creations[i := c])
  }

  /** Start-up: the normalised configured URL is stored unless a row exists, and memory gets the row
      normalised; an unusable URL keeps the process down. */
  function Start(w: World, configured: string, normalize: Normalizer): World {
    match normalize(configured)
    case None => w
    case Some(fallback) =>
      var row := if w.row.Some? then w.row.value else fallback;
      match normalize(row)
      case None => w.(row := Some(row))
      case Some(memory) => World(true, memory, Some(row), map[], map[])
  }

  /** Each step of start-up and of the two handlers; being over releases the lock. */
  function Next(w: World, s: Step, normalize: Normalizer): World
    requires Enabled(w, s)
  {
    match s
    case Boot(configured) => Start(w, configured, normalize)
    case Crash => World(false, "", w.row, map[], map[])
    case RequestUpdate(i, input) =>
      (match normalize(input)
       case None => w
       case Some(url) => SetUpdate(w, i, WaitingWrite(url)))
    case AcquireWrite(i) => SetUpdate(w, i, Holding(w.updates[i].url))
    case StoreRow(i) => SetUpdate(w, i, Stored(w.updates[i].url)).(row := Some(w.updates[i].url))
    case StoreFails(i) => SetUpdate(w, i, Failed(w.updates[i].url))
    case Assign(i) => SetUpdate(w, i, Updated(w.updates[i].url)).(memory := w.updates[i].url)
    case RequestToken(i) => SetCreation(w, i, WaitingRead)
    case AcquireRead(i) => SetCreation(w, i, Reading)
    case Compose(i) => SetCreation(w, i, Composed(w.memory))
    case Commit(i) => SetCreation(w, i, Created(w.creations[i].url, w.row.value))
    case CommitFails(i) => SetCreation(w, i, Rejected)
  }

  ghost predicate Run(worlds: seq<World>, steps: seq<Step>, normalize: Normalizer) {
    && |worlds| == |steps| + 1 && worlds[0] == Installed
    && forall k | 0 <= k < |steps| ::
         Enabled(worlds[k], steps[k]) && worlds[k + 1] == Next(worlds[k], steps[k], normalize)
  }

  // ---- the invariant --------------------------------------------------------

  /** What normalising gives is either its own normal form or refused. */
  ghost predicate Stable(normalize: Normalizer) {
    forall s :: normalize(s).Some? && normalize(normalize(s).value).Some? ==>
      normalize(normalize(s).value) == normalize(s)
  }

  ghost predicate Normalized(url: string, normalize: Normalizer) {
    exists s :: normalize(s) == Some(url)
  }

  /** Only normalised URLs are stored or on their way to being stored. */
  ghost predicate RowsNormalized(w: World, normalize: Normalizer) {
    && (w.row.Some? ==> Normalized(w.row.value, normalize))
    && forall i | i in w.updates :: Normalized(w.updates[i].url, normalize)
  }

  /** One writer at a time, and memory is the row unless that writer has stored its own. */
  ghost predicate WritersOk(w: World) {
    && (w.up ==> w.row.Some?)
    && (!w.up ==> w.updates == map[])
    && (forall i, j | i in w.updates && j in w.updates && HoldsWrite(w.updates[i])
        && HoldsWrite(w.updates[j]) :: i == j)
    && (forall i | i in w.updates && w.updates[i].Stored? :: w.row == Some(w.updates[i].url))
    && (w.up ==> w.row == Some(w.memory) || exists i | i in w.updates :: w.updates[i].Stored?)
  }

  /** A composed URL is that of memory, a committed one that of the row it was committed against. */
  ghost predicate CreationsOk(w: World) {
    && (!w.up ==> w.creations == map[])
    && (forall i | i in w.creations && w.creations[i].Composed? :: w.creations[i].url == w.memory)
    && (forall i | i in w.creations && w.creations[i].Created? :: w.creations[i].url == w.creations[i].stored)
  }

  ghost predicate Locked(w: World) {
    WritersOk(w) && CreationsOk(w) && (WriteLocked(w) ==> !ReadLocked(w))
  }

  lemma BootKeeps(w: World, configured: string, normalize: Normalizer)
    requires Stable(normalize) && !w.up && Locked(w) && RowsNormalized(w, normalize)
    ensures Locked(Start(w, configured, normalize)) && RowsNormalized(Start(w, configured, normalize), normalize)
  {
    if normalize(configured).Some? {
      var row := if w.row.Some? then w.row.value else normalize(configured).value;
      var s :| normalize(s) == Some(row);
    }
  }

  lemma StoredLocks(w: World)
    ensures (exists i | i in w.updates :: w.updates[i].Stored?) ==> WriteLocked(w)
  {
    if exists i | i in w.updates :: w.updates[i].Stored? {
      var i :| i in w.updates && w.updates[i].Stored?;
      assert HoldsWrite(w.updates[i]);
    }
  }

  predicate IsUpdateStep(s: Step) {
    s.RequestUpdate? || s.AcquireWrite? || s.StoreRow? || s.StoreFails? || s.Assign?
  }

  lemma UpdateStepKeeps(w: World, s: Step, normalize: Normalizer)
    requires Locked(w) && Enabled(w, s) && IsUpdateStep(s)
    ensures Locked(Next(w, s, normalize))
  {
    hide Locked;
    match s
    case RequestUpdate(i, input) => RequestKeeps(w, i, input, normalize);
    case AcquireWrite(i) => WriteKeeps(w, i, normalize);
    case StoreRow(i) => StoreKeeps(w, i, normalize);
    case StoreFails(i) => StoreFailsKeeps(w, i, normalize);
    case Assign(i) => AssignKeeps(w, i, normalize);
  }

  lemma RequestKeeps(w: World, i: nat, input: string, normalize: Normalizer)
    requires Locked(w) && Enabled(w, RequestUpdate(i, input))
    ensures Locked(Next(w, RequestUpdate(i, input), normalize))
  {
    var w' := Next(w, RequestUpdate(i, input), normalize);
    assert forall j | j in w.updates :: j in w'.updates && w'.updates[j] == w.updates[j];
    SameReaders(w, w');
    if normalize(input).Some? {
      assert WriteLocked(w') ==> WriteLocked(w) by {
        if WriteLocked(w') {
          var j :| j in w'.updates && HoldsWrite(w'.updates[j]);
          assert HoldsWrite(w.updates[j]);
        }
      }
      hide WriteLocked, ReadLocked;
    }
  }

  lemma WriteKeeps(w: World, i: nat, normalize: Normalizer)
    requires Locked(w) && Enabled(w, AcquireWrite(i))
    ensures Locked(Next(w, AcquireWrite(i), normalize))
  {
    var w' := Next(w, AcquireWrite(i), normalize);
    assert forall j | j in w.updates && j != i :: w'.updates[j] == w.updates[j] && !HoldsWrite(w.updates[j]);
    StoredLocks(w);
  }

  /** The step of the update that holds the lock. */
  lemma OnlyWriter(w: World, i: nat)
    requires Locked(w) && i in w.updates && HoldsWrite(w.updates[i])
    ensures WriteLocked(w) && !ReadLocked(w) && w.up && w.row.Some?
    ensures forall j | j in w.updates && j != i :: !HoldsWrite(w.updates[j])
    ensures w.updates[i].Holding? ==> w.row == Some(w.memory)
    ensures w.updates[i].Stored? ==> w.row == Some(w.updates[i].url)
  {
    if w.updates[i].Holding? {
      assert forall j | j in w.updates :: !w.updates[j].Stored?;
    }
  }

  lemma StoreKeeps(w: World, i: nat, normalize: Normalizer)
    requires Locked(w) && Enabled(w, StoreRow(i))
    ensures Locked(Next(w, StoreRow(i), normalize))
  {
    OnlyWriter(w, i);
    NoReaders(w);
    var w' := Next(w, StoreRow(i), normalize);
    assert w'.updates[i].Stored?;
    hide ReadLocked, HoldsRead;
    assert ReadLocked(w') == ReadLocked(w) by {
      SameReaders(w, w');
    }
  }

  lemma StoreFailsKeeps(w: World, i: nat, normalize: Normalizer)
    requires Locked(w) && Enabled(w, StoreFails(i))
    ensures Locked(Next(w, StoreFails(i), normalize))
  {
    OnlyWriter(w, i);
    NoReaders(w);
    var w' := Next(w, StoreFails(i), normalize);
    SameReaders(w, w');
    hide ReadLocked, HoldsRead;
  }

  lemma AssignKeeps(w: World, i: nat, normalize: Normalizer)
    requires Locked(w) && Enabled(w, Assign(i))
    ensures Locked(Next(w, Assign(i), normalize))
  {
    OnlyWriter(w, i);
    NoReaders(w);
    var w' := Next(w, Assign(i), normalize);
    SameReaders(w, w');
    hide ReadLocked, HoldsRead;
  }

  lemma NoReaders(w: World)
    requires !ReadLocked(w)
    ensures forall i | i in w.creations :: !w.creations[i].Reading? && !w.creations[i].Composed?
  {
    forall i | i in w.creations
      ensures !HoldsRead(w.creations[i])
    {
    }
  }

  lemma SameReaders(w: World, w': World)
    requires w'.creations == w.creations
    ensures ReadLocked(w') == ReadLocked(w)
  {
  }

  lemma SameWriters(w: World, w': World)
    requires w'.updates == w.updates
    ensures WriteLocked(w') == WriteLocked(w)
  {
  }

  lemma UpdateStepNormalizes(w: World, s: Step, normalize: Normalizer)
    requires RowsNormalized(w, normalize) && Enabled(w, s) && IsUpdateStep(s)
    ensures RowsNormalized(Next(w, s, normalize), normalize)
  {
  }

  predicate IsCreationStep(s: Step) {
    s.RequestToken? || s.AcquireRead? || s.Compose? || s.Commit? || s.CommitFails?
  }

  lemma CreationStepKeeps(w: World, s: Step, normalize: Normalizer)
    requires Locked(w) && Enabled(w, s) && IsCreationStep(s)
    ensures Locked(Next(w, s, normalize))
  {
    var w' := Next(w, s, normalize);
    ReadersAfter(w, s, normalize);
    SameWriters(w, w');
    CreationsKeep(w, s, normalize);
    hide WriteLocked, ReadLocked, HoldsWrite, HoldsRead, CreationsOk;
  }

  lemma CreationsKeep(w: World, s: Step, normalize: Normalizer)
    requires Locked(w) && Enabled(w, s) && IsCreationStep(s)
    ensures CreationsOk(Next(w, s, normalize))
  {
    var w' := Next(w, s, normalize);
    if s.Commit? {
      ReaderSeesRow(w, s.i);
    }
    hide WriteLocked, ReadLocked, WritersOk;
    assert forall j | j in w.creations && j != s.i :: w'.creations[j] == w.creations[j];
  }

  /** Only taking the lock adds a reader, and while there is one, no row is stored ahead of memory. */
  lemma ReadersAfter(w: World, s: Step, normalize: Normalizer)
    requires Enabled(w, s) && IsCreationStep(s)
    ensures ReadLocked(Next(w, s, normalize)) ==> ReadLocked(w) || s.AcquireRead?
    ensures s.Compose? || s.Commit? || s.CommitFails? ==> ReadLocked(w)
  {
    var w' := Next(w, s, normalize);
    if ReadLocked(w') && !s.AcquireRead? {
      var j :| j in w'.creations && HoldsRead(w'.creations[j]);
      if j == s.i {
        assert HoldsRead(w.creations[s.i]);
      } else {
        assert HoldsRead(w.creations[j]);
      }
    }
    if s.Compose? || s.Commit? || s.CommitFails? {
      assert HoldsRead(w.creations[s.i]);
    }
  }

  lemma StepKeeps(w: World, s: Step, normalize: Normalizer)
    requires Stable(normalize) && Locked(w) && RowsNormalized(w, normalize) && Enabled(w, s)
    ensures Locked(Next(w, s, normalize)) && RowsNormalized(Next(w, s, normalize), normalize)
  {
    if s.Boot? {
      BootKeeps(w, s.configured, normalize);
    } else if IsUpdateStep(s) {
      hide Locked, RowsNormalized;
      UpdateStepKeeps(w, s, normalize);
      UpdateStepNormalizes(w, s, normalize);
    } else if IsCreationStep(s) {
      hide Locked;
      CreationStepKeeps(w, s, normalize);
    }
  }

  lemma {:induction false} AlwaysLocked(worlds: seq<World>, steps: seq<Step>, normalize: Normalizer, k: nat)
    requires Stable(normalize) && Run(worlds, steps, normalize) && k < |worlds|
    ensures Locked(worlds[k]) && RowsNormalized(worlds[k], normalize)
  {
    if k > 0 {
      hide Enabled, Next, Locked, RowsNormalized, Stable;
      AlwaysLocked(worlds, steps, normalize, k - 1);
      StepKeeps(worlds[k - 1], steps[k - 1], normalize);
    }
  }

  // ---- what follows ---------------------------------------------------------

  ghost predicate Agrees(w: World) {
    w.up && !WriteLocked(w) ==> w.row == Some(w.memory)
  }

  lemma LockedAgrees(w: World)
    requires Locked(w)
    ensures Agrees(w)
  {
    StoredLocks(w);
  }

  /** In every run, over any number of restarts, memory and the stored row are the same whenever the process
      is up and no writer holds the lock. */
  lemma MemoryIsRow(worlds: seq<World>, steps: seq<Step>, normalize: Normalizer, k: nat)
    requires Stable(normalize) && Run(worlds, steps, normalize) && k < |worlds|
    ensures Agrees(worlds[k])
  {
    AlwaysLocked(worlds, steps, normalize, k);
    LockedAgrees(worlds[k]);
  }

  /** And stability of the normal form is what this takes: any URL whose normal form has yet another normal
      form makes memory and row differ on the very first start. */
  lemma UnstableDisagrees(normalize: Normalizer, s: string)
    requires normalize(s).Some? && normalize(normalize(s).value).Some?
    requires normalize(normalize(s).value) != normalize(s)
    ensures exists w :: Run([Installed, w], [Boot(s)], normalize) && !Agrees(w)
  {
    var w := Next(Installed, Boot(s), normalize);
    assert Run([Installed, w], [Boot(s)], normalize);
    assert !Agrees(w);
  }

  /** Every created token's URL uses the value that was stored when its row was committed. */
  lemma TokenUsesStored(worlds: seq<World>, steps: seq<Step>, normalize: Normalizer, k: nat)
    requires Stable(normalize) && Run(worlds, steps, normalize) && k < |steps| && steps[k].Commit?
    ensures worlds[k].row.Some? && steps[k].i in worlds[k + 1].creations
    ensures worlds[k + 1].creations[steps[k].i] == Created(worlds[k].row.value, worlds[k].row.value)
  {
    AlwaysLocked(worlds, steps, normalize, k);
    AlwaysLocked(worlds, steps, normalize, k + 1);
  }

  /** While one update holds the lock and has not stored, nothing it shares changes. */
  lemma {:induction false} HeldStill(worlds: seq<World>, steps: seq<Step>, normalize: Normalizer, j: nat, k: nat,
      i: nat)
    requires Stable(normalize) && Run(worlds, steps, normalize) && j <= k < |worlds|
    requires forall m | j <= m <= k :: i in worlds[m].updates && worlds[m].updates[i].Holding?
    ensures worlds[k].memory == worlds[j].memory && worlds[k].row == worlds[j].row
    decreases k
  {
    hide Enabled, Next, Locked, RowsNormalized, Stable;
    if j < k {
      HeldStill(worlds, steps, normalize, j, k - 1, i);
      AlwaysLocked(worlds, steps, normalize, k - 1);
      AlwaysLocked(worlds, steps, normalize, k);
      StillHeld(worlds[k - 1], steps[k - 1], normalize, i);
    }
  }

  lemma StillHeld(w: World, s: Step, normalize: Normalizer, i: nat)
    requires Locked(w) && Enabled(w, s) && i in w.updates && w.updates[i].Holding?
    requires i in Next(w, s, normalize).updates && Next(w, s, normalize).updates[i].Holding?
    ensures Next(w, s, normalize).memory == w.memory && Next(w, s, normalize).row == w.row
  {
    hide WriteLocked, ReadLocked;
    OnlyWriter(w, i);
  }

  /** A failed update leaves memory and row as they were when it took the lock. */
  lemma FailedChangesNothing(worlds: seq<World>, steps: seq<Step>, normalize: Normalizer, j: nat, k: nat, i: nat)
    requires Stable(normalize) && Run(worlds, steps, normalize) && j < k < |steps|
    requires steps[j] == AcquireWrite(i) && steps[k] == StoreFails(i)
    requires forall m | j < m <= k :: i in worlds[m].updates && worlds[m].updates[i].Holding?
    ensures worlds[k + 1].memory == worlds[j].memory && worlds[k + 1].row == worlds[j].row == Some(worlds[j].memory)
  {
    HeldStill(worlds, steps, normalize, j + 1, k, i);
    assert Enabled(worlds[j], steps[j]) && worlds[j + 1] == Next(worlds[j], steps[j], normalize);
    assert Enabled(worlds[k], steps[k]) && worlds[k + 1] == Next(worlds[k], steps[k], normalize);
    MemoryIsRow(worlds, steps, normalize, j);
  }

  /** When a successful update lets go of the lock, both have its value. */
  lemma UpdatedIsBoth(worlds: seq<World>, steps: seq<Step>, normalize: Normalizer, k: nat)
    requires Stable(normalize) && Run(worlds, steps, normalize) && k < |steps| && steps[k].Assign?
    ensures var i := steps[k].i;
            && i in worlds[k].updates && worlds[k + 1].memory == worlds[k].updates[i].url
            && worlds[k + 1].row == Some(worlds[k + 1].memory)
  {
    AlwaysLocked(worlds, steps, normalize, k);
  }

  /** While a token creation holds the lock, memory is the row. */
  lemma ReaderSeesRow(w: World, i: nat)
    requires Locked(w) && w.up && i in w.creations && HoldsRead(w.creations[i])
    ensures w.row == Some(w.memory)
  {
    assert ReadLocked(w);
    LockedAgrees(w);
  }

  // ---- where the stored row comes from --------------------------------------

  /** A start keeps the stored row if there is one; only the first stores the configured URL. The process comes up when
      what is stored has a normal form, and that is what memory then holds. */
  lemma BootMeans(w: World, configured: string, normalize: Normalizer)
    requires !w.up
    ensures var w' := Next(w, Boot(configured), normalize);
            && (normalize(configured).None? ==> w' == w)
            && (normalize(configured).Some? ==>
                  && w'.row == (if w.row.Some? then w.row else normalize(configured))
                  && (w'.up <==> normalize(w'.row.value).Some?)
                     && (w'.up ==> normalize(w'.row.value) == Some(w'.memory))
                  && (w'.up ==> w'.updates == map[] && w'.creations == map[]))
  {
  }

  /** The step stores the URL: an update's, or at the first start the configured one's normal form. */
  predicate Stores(w: World, s: Step, normalize: Normalizer, url: string) {
    match s
    case Boot(configured) => w.row.None? && normalize(configured) == Some(url)
    case StoreRow(i) => i in w.updates && w.updates[i].url == url
    case _ => false
  }

  lemma RowMoves(w: World, s: Step, normalize: Normalizer)
    requires Enabled(w, s)
    ensures var row := Next(w, s, normalize).row;
            if s.StoreRow? || (s.Boot? && w.row.None? && row.Some?) then row.Some? && Stores(w, s, normalize, row.value)
            else row == w.row
  {
    hide WriteLocked, ReadLocked;
  }

  /** THE LAST WRITE STANDS. Whenever there is a stored row, over any number of restarts, it is the URL of the last
      update that was stored, or as long as there was none the normal form of the first usable configured URL. */
  lemma {:induction false} RowAccounted(worlds: seq<World>, steps: seq<Step>, normalize: Normalizer, k: nat)
    requires Run(worlds, steps, normalize) && k < |worlds| && worlds[k].row.Some?
    ensures exists j | 0 <= j < k ::
              && Stores(worlds[j], steps[j], normalize, worlds[k].row.value)
              && forall m | j < m < k :: !steps[m].StoreRow?
  {
    hide Enabled, Next, Stores;
    assert k > 0;
    var (w, s) := (worlds[k - 1], steps[k - 1]);
    RowMoves(w, s, normalize);
    if !(s.StoreRow? || (s.Boot? && w.row.None?)) {
      RowAccounted(worlds, steps, normalize, k - 1);
    } else {
      assert Stores(w, s, normalize, worlds[k].row.value);
    }
  }

  /** And an update's URL is the normal form of what was asked for. */
  lemma {:induction false} UpdateAccounted(worlds: seq<World>, steps: seq<Step>, normalize: Normalizer, k: nat, i: nat)
    requires Run(worlds, steps, normalize) && k < |worlds| && i in worlds[k].updates
    ensures exists j | 0 <= j < k ::
              steps[j].RequestUpdate? && steps[j].i == i && normalize(steps[j].input) == Some(worlds[k].updates[i].url)
  {
    hide Enabled, Next;
    assert k > 0;
    UpdateMoves(worlds[k - 1], steps[k - 1], normalize, i);
    if i in worlds[k - 1].updates {
      UpdateAccounted(worlds, steps, normalize, k - 1, i);
    }
  }

  lemma UpdateMoves(w: World, s: Step, normalize: Normalizer, i: nat)
    requires Enabled(w, s) && i in Next(w, s, normalize).updates
    ensures var url := Next(w, s, normalize).updates[i].url;
            if i in w.updates then url == w.updates[i].url
            else s.RequestUpdate? && s.i == i && normalize(s.input) == Some(url)
  {
    hide WriteLocked, ReadLocked;
  }

  // ---- the two handlers, statement by statement -----------------------------

  /** The shared state as an object; the critical sections are the steps between taking and releasing the
      lock, run to their end. */
  class Service {
    var memory: string
    var row: Option<string>
    var updates: map<nat, Update>
    var creations: map<nat, Creation>

    function Value(): World
      reads this
    {
      World(true, memory, row, updates, creations)
    }

    constructor (w: World)
      requires w.up
      ensures Value() == w
    {
      memory, row, updates, creations := w.memory, w.row, w.updates, w.creations;
    }

    /** What an update does once it holds the write lock; `stores` says whether the database statement
        succeeds. */
    method UpdateLocked(i: nat, stores: bool, ghost normalize: Normalizer) returns (ok: bool)
      requires Enabled(Value(), StoreRow(i)) && Locked(Value())
      modifies this
      ensures ok == stores && Locked(Value())
      ensures Value() == old(if stores then Next(Next(Value(), StoreRow(i), normalize), Assign(i), normalize)
                             else Next(Value(), StoreFails(i), normalize))
      ensures ok ==> row == Some(memory) == Some(old(updates[i].url))
      ensures !ok ==> memory == old(memory) && row == old(row)
    {
      hide Locked;
      ghost var before := Value();
      var publicUrl := updates[i].url;
      if !stores {
        updates := updates[i := Failed(publicUrl)];
        UpdateStepKeeps(before, StoreFails(i), normalize);
        return false;
      }
      row := Some(publicUrl);
      memory := publicUrl;
      updates := updates[i := Updated(publicUrl)];
      var stored := Next(before, StoreRow(i), normalize);
      UpdateStepKeeps(before, StoreRow(i), normalize);
      UpdateStepKeeps(stored, Assign(i), normalize);
      assert Value() == Next(stored, Assign(i), normalize);
      ok := true;
    }

    /** What a token creation does once it holds the read lock; by the lock, the URL it returns is that of
        the stored row. */
    method CreateLocked(i: nat, plaintext: string, commits: bool, ghost normalize: Normalizer)
        returns (url: Option<string>)
      requires Enabled(Value(), Compose(i)) && Locked(Value())
      modifies this`creations
      ensures Locked(Value()) && row.Some?
      ensures Value() == old(if commits then Next(Next(Value(), Compose(i), normalize), Commit(i), normalize)
                             else Next(Value(), CommitFails(i), normalize))
      ensures url == if commits then Some(row.value + "/sub/" + plaintext) else None
    {
      ghost var before := Value();
      ReaderSeesRow(before, i);
      hide Locked, WriteLocked, ReadLocked;
      if !commits {
        creations := creations[i := Rejected];
        CreationStepKeeps(before, CommitFails(i), normalize);
        return None;
      }
      var publicUrl := memory;
      var composed := Next(before, Compose(i), normalize);
      CreationStepKeeps(before, Compose(i), normalize);
      CreationStepKeeps(composed, Commit(i), normalize);
      creations := creations[i := Created(publicUrl, publicUrl)];
      assert Value() == Next(composed, Commit(i), normalize);
      url := Some(publicUrl + "/sub/" + plaintext);
    }
  }
}
