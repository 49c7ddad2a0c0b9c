/** `refactor:reset`: empties the ledger table only when it exists. */
module ResetCommand {
  import opened Repositories

  /** The store after the command: only the cache changes when there is no table; otherwise every row is removed. */
  function ResetEffect(st: StoreState): StoreState {
    var queried := AfterExistsQuery(st);
    if !ExistsAnswer(st) then queried else queried.(records := [])
  }

  /** `handle()`. */
  method Handle(repository: DatabaseRefactorRepository)
    requires repository.Valid()
    modifies repository
    ensures repository.Valid()
    ensures repository.State() == ResetEffect(old(repository.State()))
  {
    var present := repository.RepositoryExists();
    if !present {
      return;
    }
    var deleted := repository.Reset();
  }

  /** Reset never creates or drops the table, and afterwards no class counts as run. */
  lemma ResetClearsLedger(st: StoreState, c: string)
    requires Consistent(st)
    ensures ResetEffect(st).hasTable == st.hasTable
    ensures ResetEffect(st).records == []
    ensures !Ran(ResetEffect(st).records, c)
    ensures Consistent(ResetEffect(st))
  {
  }

  /** Resetting twice has the effect of resetting once. */
  lemma ResetIsIdempotent(st: StoreState)
    requires Consistent(st)
    ensures ResetEffect(ResetEffect(st)) == ResetEffect(st)
  {
  }
}
