/**
 * The lifecycle bridge: the migration runner's "started" and "ended"
 * notifications become refactor events (before-up, before-down, up, down) for
 * migrations that name a refactor class, and each refactor event is routed
 * into the execution engine.
 *
 * The event bus itself is not modelled: a notification yields the list of
 * refactor events it dispatches, and `Dispatch` delivers them to the refactor
 * handler in order.
 */
module RefactorListener {
  import opened Wrappers
  import opened Repositories
  import opened Refactorer

  /** A migration object; `refactor` is what its `refactor()` method returns, None when it has no such method. */
  datatype Migration = Migration(name: string, refactor: Option<string>)

  /** The runner's notification around one migration step, with the step's direction. */
  datatype MigrationEvent =
    | MigrationStarted(migration: Migration, methodName: string)
    | MigrationEnded(migration: Migration, methodName: string)

  datatype RefactorEventKind = RefactorBeforeUp | RefactorBeforeDown | RefactorUp | RefactorDown

  /** A refactor event: its kind, the refactor class it names, and the notification that caused it. */
  datatype RefactorEvent = RefactorEvent(kind: RefactorEventKind, cls: string, migrationEvent: MigrationEvent)

  /** The event kind `fireRefactorEvent` picks: "before" for a started step, "up" for a step whose method is `up`. */
  function EventKind(e: MigrationEvent): (k: RefactorEventKind)
    ensures (k.RefactorBeforeUp? || k.RefactorBeforeDown?) <==> e.MigrationStarted?
    ensures (k.RefactorBeforeUp? || k.RefactorUp?) <==> e.methodName == Up
  {
    var before := e.MigrationStarted?;
    var up := e.methodName == Up;
    if before then (if up then RefactorBeforeUp else RefactorBeforeDown)
    else (if up then RefactorUp else RefactorDown)
  }

  /** `onMigration`: one refactor event for a migration that names a refactor, none otherwise. */
  function OnMigration(e: MigrationEvent): (events: seq<RefactorEvent>)
    ensures e.migration.refactor.None? ==> events == []
    ensures e.migration.refactor.Some? ==> |events| == 1
    ensures forall ev | ev in events ::
              e.migration.refactor == Some(ev.cls) && ev.migrationEvent == e && ev.kind == EventKind(e)
  {
    match e.migration.refactor
    case None => []
    case Some(cls) => [RefactorEvent(EventKind(e), cls, e)]
  }

  /** The engine method a refactor event of each kind asks for. */
  function MethodOf(kind: RefactorEventKind): string {
    match kind
    case RefactorBeforeUp => BeforeUp
    case RefactorBeforeDown => BeforeDown
    case RefactorUp => Up
    case RefactorDown => Down
  }

  /** What `onRefactor` does to the ledger rows: an unknown class is refused before the engine is called. */
  function OnRefactorEffect(records: seq<Record>, registry: Registry, ev: RefactorEvent, unit: UnitResult): Transition {
    if ev.cls !in registry then Transition(Failed(UnknownClass(ev.cls)), records)
    else Execution(records, registry, ev.cls, MethodOf(ev.kind), unit)
  }

  /** `onRefactor(event)`: refuses a class that does not exist, leaving the store untouched, else runs the engine. */
  method OnRefactor(ev: RefactorEvent, repository: DatabaseRefactorRepository, registry: Registry, unit: UnitResult)
    returns (outcome: Outcome)
    requires repository.Valid()
    modifies repository
    ensures repository.Valid()
    ensures ev.cls !in registry ==> outcome == Failed(UnknownClass(ev.cls)) && repository.State() == old(repository.State())
    ensures ev.cls in registry ==> repository.storeHasTable && repository.cachedExists == Some(true)
    ensures Transition(outcome, repository.records) == OnRefactorEffect(old(repository.records), registry, ev, unit)
  {
    if ev.cls !in registry {
      return Failed(UnknownClass(ev.cls));
    }
    outcome := Execute(ev.cls, MethodOf(ev.kind), repository, registry, unit);
  }

  /** One notification delivered end to end: its refactor event, if any, handled by `onRefactor`. */
  function Dispatch(records: seq<Record>, registry: Registry, e: MigrationEvent, unit: UnitResult): Transition {
    var events := OnMigration(e);
    if events == [] then Transition(Done, records)
    else OnRefactorEffect(records, registry, events[0], unit)
  }

  // ---------------------------------------------------------------------------
  // Properties of the bridge
  // ---------------------------------------------------------------------------

  /** A migration without a `refactor` method dispatches nothing and leaves the ledger alone. */
  lemma PlainMigrationIsIgnored(records: seq<Record>, registry: Registry, e: MigrationEvent, unit: UnitResult)
    requires e.migration.refactor.None?
    ensures OnMigration(e) == []
    ensures Dispatch(records, registry, e, unit) == Transition(Done, records)
  {
  }

  /** Started then ended for one step: the before-event comes first, both name the same refactor and their own notification. */
  lemma BeforeEventComesFirst(m: Migration, direction: string)
    requires m.refactor.Some?
    ensures var events := OnMigration(MigrationStarted(m, direction)) + OnMigration(MigrationEnded(m, direction));
            && |events| == 2
            && events[0].kind == (if direction == Up then RefactorBeforeUp else RefactorBeforeDown)
            && events[1].kind == (if direction == Up then RefactorUp else RefactorDown)
            && events[0].cls == events[1].cls == m.refactor.value
            && events[0].migrationEvent == MigrationStarted(m, direction)
            && events[1].migrationEvent == MigrationEnded(m, direction)
  {
  }

  /** A refactor event for a class that does not exist is refused and the ledger is untouched. */
  lemma UnknownClassIsRefused(records: seq<Record>, registry: Registry, ev: RefactorEvent, unit: UnitResult)
    requires ev.cls !in registry
    ensures OnRefactorEffect(records, registry, ev, unit) == Transition(Failed(UnknownClass(ev.cls)), records)
  {
  }

  /**
   * Migrating up a migration that names refactor r: the started step runs
   * `beforeUp` and writes nothing; the ended step runs `up` and logs r, so the
   * ledger shows r only once both notifications have been handled.
   */
  lemma MigrateUpRunsRefactor(s: seq<Record>, registry: Registry, m: Migration, r: string)
    requires m.refactor == Some(r)
    requires r in registry && Up in registry[r] && BeforeUp in registry[r]
    requires !Ran(s, r)
    ensures var started := Dispatch(s, registry, MigrationStarted(m, Up), Returns);
            var ended := Dispatch(started.records, registry, MigrationEnded(m, Up), Returns);
            && started == Transition(Done, s)
            && !Ran(started.records, r)
            && ended.outcome == Done
            && ended.records == s + [Record(r, None, LastBatch(s) + 1)]
            && Ran(ended.records, r)
  {
    LogMarksRan(s, r, None, None);
  }

  /**
   * Migrating down a migration that names refactor r after it ran: the ended
   * step deletes every row for r.
   */
  lemma MigrateDownRollsBackRefactor(s: seq<Record>, registry: Registry, m: Migration, r: string)
    requires m.refactor == Some(r)
    requires r in registry && Down in registry[r] && BeforeDown in registry[r]
    requires Ran(s, r)
    ensures var started := Dispatch(s, registry, MigrationStarted(m, Down), Returns);
            var ended := Dispatch(started.records, registry, MigrationEnded(m, Down), Returns);
            && started == Transition(Done, s)
            && ended.outcome == Done
            && ended.records == Without(s, r)
            && !Ran(ended.records, r)
  {
  }

  /** A refactor class without `beforeUp` makes the started step fail, writing nothing. */
  lemma MissingBeforeHookFailsStart(s: seq<Record>, registry: Registry, m: Migration, r: string, unit: UnitResult)
    requires m.refactor == Some(r)
    requires r in registry && BeforeUp !in registry[r]
    ensures Dispatch(s, registry, MigrationStarted(m, Up), unit) == Transition(Failed(UndefinedMethod(r, BeforeUp)), s)
  {
  }
}
