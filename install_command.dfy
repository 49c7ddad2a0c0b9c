/** `refactor:install`: creates the ledger table only when it is absent. */
module InstallCommand {
  import opened Repositories

  /** The store after the command: unchanged but for the cache when the table exists, a new empty table otherwise. */
  function Installed(st: StoreState): StoreState {
    if ExistsAnswer(st) then AfterExistsQuery(st) else NewTable
  }

  /** `handle()`. */
  method Handle(repository: DatabaseRefactorRepository)
    requires repository.Valid()
    modifies repository
    ensures repository.Valid()
    ensures repository.State() == Installed(old(repository.State()))
  {
    var present := repository.RepositoryExists();
    if present {
      return;
    }
    var created := repository.CreateRepository();
  }

  /** Afterwards the table exists and is cached as existing; the rows of an existing table are kept, a created one is empty. */
  lemma InstallProvisions(st: StoreState)
    requires Consistent(st)
    ensures Installed(st).hasTable && ExistsAnswer(Installed(st))
    ensures Installed(st).records == st.records
    ensures !st.hasTable ==> Installed(st).records == []
    ensures Consistent(Installed(st))
  {
  }

  /** Installing twice has the effect of installing once. */
  lemma InstallIsIdempotent(st: StoreState)
    requires Consistent(st)
    ensures Installed(Installed(st)) == Installed(st)
  {
  }
}
