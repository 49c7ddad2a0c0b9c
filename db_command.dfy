/**
 * `db:refactor --class=<name> [--rollback]`: refuses a class that does not
 * exist, then runs the engine with `down` under `--rollback` and with the
 * legacy `run` otherwise.
 */
module DbCommand {
  import opened Wrappers
  import opened Repositories
  import opened Refactorer

  /** The engine method the command asks for. */
  function MethodFor(rollback: bool): string {
    if rollback then Down else Run
  }

  /** What the command does to the ledger rows. */
  function DbRefactorEffect(records: seq<Record>, registry: Registry, cls: string, rollback: bool, unit: UnitResult): Transition {
    if cls !in registry then Transition(Failed(UnknownClass(cls)), records)
    else Execution(records, registry, cls, MethodFor(rollback), unit)
  }

  /** `handle()`: an unknown class is refused before the engine (and so before the store) is touched. */
  method Handle(cls: string, rollback: bool, repository: DatabaseRefactorRepository, registry: Registry, unit: UnitResult)
    returns (outcome: Outcome)
    requires repository.Valid()
    modifies repository
    ensures repository.Valid()
    ensures cls !in registry ==> outcome == Failed(UnknownClass(cls)) && repository.State() == old(repository.State())
    ensures cls in registry ==> repository.storeHasTable && repository.cachedExists == Some(true)
    ensures Transition(outcome, repository.records) == DbRefactorEffect(old(repository.records), registry, cls, rollback, unit)
  {
    if cls !in registry {
      return Failed(UnknownClass(cls));
    }
    outcome := Execute(cls, MethodFor(rollback), repository, registry, unit);
  }

  /** With `--rollback` the command is the engine's `down`. */
  lemma RollbackRunsDown(s: seq<Record>, registry: Registry, cls: string, unit: UnitResult)
    requires cls in registry
    ensures DbRefactorEffect(s, registry, cls, true, unit) == Execution(s, registry, cls, Down, unit)
  {
  }

  /** Without `--rollback` (method `run`) the ledger is queried but never written, and its answer does not affect the outcome: the outcome is the same whatever it holds. */
  lemma ForwardRunIgnoresLedger(s: seq<Record>, t: seq<Record>, registry: Registry, cls: string, unit: UnitResult)
    ensures DbRefactorEffect(s, registry, cls, false, unit).records == s
    ensures DbRefactorEffect(s, registry, cls, false, unit).outcome == DbRefactorEffect(t, registry, cls, false, unit).outcome
  {
  }

  /** Rolling back a class that never ran fails and leaves the ledger unchanged. */
  lemma RollbackOfUnranClassFails(s: seq<Record>, registry: Registry, cls: string, unit: UnitResult)
    requires !Ran(s, cls)
    ensures DbRefactorEffect(s, registry, cls, true, unit).outcome.Failed?
    ensures DbRefactorEffect(s, registry, cls, true, unit).records == s
  {
  }
}
