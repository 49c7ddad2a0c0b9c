# Refactor run-ledger and run/rollback engine — a Dafny model

This project models the core of the Laravel package for database refactors. A
refactor is a one-off class with `up` and `down` methods, and optionally
`beforeUp`/`beforeDown` hooks. The model covers:

- **The run-ledger** (`Repositories`): the `refactors` table of rows
  `(refactor, migration?, batch)` with a unique index on `(refactor, migration)`,
  and the repository object that creates the table lazily and caches whether it
  exists. The class `DatabaseRefactorRepository` holds the store's table flag,
  the cached `exists` answer and the rows. Its object invariant `Valid()` says:
  - there are no rows without a table;
  - a cached answer agrees with the store;
  - the unique index holds.

  Each method is tied to a pure function of the rows: `LastBatch`, `Ran`,
  `Logged` or `Without`.
- **The execution engine** (`Refactorer`). `Execution` is the pure transition
  and `Execute` is the imperative method proved against it. The steps are:
  1. provision the table;
  2. refuse an unknown class;
  3. refuse `up`/`down` on a class that does not declare it;
  4. refuse `up` on a class that has run, and `down` on one that has not;
  5. invoke the refactor's method;
  6. only then `log` (after `up`) or `delete` (after `down`).

  PHP's class table is a `Registry` from class name to method names. What a
  refactor's method does is reduced to "returns" or "raises".
- **The lifecycle bridge** (`RefactorListener`). The migration runner sends a
  started or ended notification. If the migration names a refactor, this
  becomes one of four refactor events. `onRefactor` refuses classes that do not
  exist and otherwise calls the engine.
- **The commands**:
  - `refactor:status` (`StatusCommand`) joins the discovered classes with the
    run records.
  - `db:refactor` (`DbCommand`) uses `down` with `--rollback` and the legacy
    `run` otherwise.
  - `refactor:install` (`InstallCommand`) creates the table only if it is absent.
  - `refactor:reset` (`ResetCommand`) empties the table only if it exists.

The model follows the code on these points, where the code does less than its
own comments suggest:
- Invoking a method that the refactor class does not declare raises, and that
  includes a missing `beforeUp`/`beforeDown` hook. Only `up` and `down` are
  listed as required methods (src/Refactorer.php:9-14), yet the engine invokes
  the hooks unchecked (`RefactorListener.MissingBeforeHookFailsStart`).
- `execute` logs a refactor with a NULL migration, even when a migration
  triggered it.
- `db:refactor` without `--rollback` runs the legacy `run` method. The engine
  still asks the ledger whether the class has run, but the answer does not
  affect the outcome, and the ledger is never written.
- `log` swallows every insert failure, not only unique-index violations. The
  only failure the model's store can raise is the unique-index rejection.

There is one exception. The engine asks the repository for `hasRun`, which the
repository does not define. The main model, `Refactorer.Execution`, reads it as
`hasRan`, and the code as written is modelled beside it (see "## Findings").

## Model

| member | source | states |
|---|---|---|
| `Repositories.RanIff` | src/Repositories/DatabaseRefactorRepository.php:98-101 | `hasRan(c)` holds exactly when some row names `c`, whatever its migration |
| `Repositories.LastBatch` | src/Repositories/DatabaseRefactorRepository.php:60-63 | the last batch number is 0 on an empty table; otherwise it is a stored batch that no stored batch exceeds |
| `Repositories.Without` | src/Repositories/DatabaseRefactorRepository.php:87-90 | after `delete(c)`, a row remains exactly when it was stored and is not for `c`. The number of rows drops by the count for `c`, and deleting a class with no rows changes nothing |
| `Repositories.WithoutKeepsOtherRows` | src/Repositories/DatabaseRefactorRepository.php:87-90 | `delete(c)` removes the rows for `c` and no others: no copy of a row for `c` remains, and every row for another class keeps its number of copies |
| `Repositories.LogDefaultBatch` | src/Repositories/DatabaseRefactorRepository.php:72-79 | without a batch, when the migration is NULL or the `(refactor, migration)` pair is not yet stored, `log` appends exactly one row. Its batch is greater than every stored batch and becomes the new last batch |
| `Repositories.LogExplicitBatch` | src/Repositories/DatabaseRefactorRepository.php:75-77 | with a batch `b`, when the migration is NULL or the `(refactor, migration)` pair is not yet stored, `log` appends exactly `(c, m, b)` and changes nothing else |
| `Repositories.LogDuplicateIsNoop` | src/Repositories/DatabaseRefactorRepository.php:74-78 | logging a `(refactor, migration)` pair already stored with a non-null migration leaves the rows unchanged and raises nothing |
| `Repositories.LogSamePairTwice` | src/Repositories/DatabaseRefactorRepository.php:30-36 | logging a pair with a non-null migration twice has the effect of logging it once |
| `Repositories.LogTwoMigrations` | src/Repositories/DatabaseRefactorRepository.php:30-36 | one class logged for two different migrations gives two rows, one per migration |
| `Repositories.LogMarksRan` | src/Repositories/DatabaseRefactorRepository.php:72-79 | after `log(c, ...)`, `hasRan(c)` holds, whether the row was inserted or swallowed |
| `Repositories.LogKeepsPairsUnique` | src/Repositories/DatabaseRefactorRepository.php:35 | `log` preserves the unique index on `(refactor, migration)` |
| `Repositories.DeleteKeepsPairsUnique` | src/Repositories/DatabaseRefactorRepository.php:87-90 | `delete` preserves the unique index |
| `Repositories.WithoutAppend` | src/Repositories/DatabaseRefactorRepository.php:87-90 | deleting `c` after one appended row keeps that row exactly when it is for another class |
| `Repositories.CountAppend` | src/Repositories/DatabaseRefactorRepository.php:98-101 | appending a row for `c` raises the count for `c` by one; appending a row for another class leaves it unchanged |
| `Repositories.LogEachAdvancesBatch` | src/Repositories/DatabaseRefactorRepository.php:75 | each default-batch `log` with a NULL migration (the call `execute` makes at src/Refactorer.php:55) raises the last batch by exactly one, so after N of them it is N higher (N from an empty table). A default-batch `log` of a stored non-null pair is swallowed and leaves the last batch as it was (`LogDuplicateIsNoop`) |
| `Repositories.ExistsAnswer` | src/Repositories/DatabaseRefactorRepository.php:46-53 | on a consistent store, the cached-or-queried answer of `repositoryExists()` is whether the table is there |
| `Repositories.Provisioned` | src/Repositories/DatabaseRefactorRepository.php:118-132 | after `check()` the table exists, the cache says so and the rows are unchanged; consistency is kept |
| `Repositories.DatabaseRefactorRepository.constructor` | src/Repositories/DatabaseRefactorRepository.php:16-19 | a new repository object has no cached answer and sees the store as it is |
| `Repositories.DatabaseRefactorRepository.CreateRepository` | src/Repositories/DatabaseRefactorRepository.php:26-39 | creates an empty table and caches `true`; fails and changes nothing if the table is already there |
| `Repositories.DatabaseRefactorRepository.RepositoryExists` | src/Repositories/DatabaseRefactorRepository.php:46-53 | answers whether the table exists and caches its first answer |
| `Repositories.DatabaseRefactorRepository.Check` | src/Repositories/DatabaseRefactorRepository.php:127-132 | leaves the store as `Provisioned` describes |
| `Repositories.DatabaseRefactorRepository.GetLastBatchNumber` | src/Repositories/DatabaseRefactorRepository.php:60-63 | provisions the table, then answers `LastBatch` of the rows |
| `Repositories.DatabaseRefactorRepository.Log` | src/Repositories/DatabaseRefactorRepository.php:72-79 | provisions the table; the rows become `Logged(old rows, c, migration, batch)` and the invariant is kept |
| `Repositories.DatabaseRefactorRepository.Delete` | src/Repositories/DatabaseRefactorRepository.php:87-90 | provisions the table; the rows become `Without(old rows, c)`, and it answers how many rows were removed |
| `Repositories.DatabaseRefactorRepository.HasRan` | src/Repositories/DatabaseRefactorRepository.php:98-101 | provisions the table and answers whether `c` has a row |
| `Repositories.DatabaseRefactorRepository.Reset` | src/Repositories/DatabaseRefactorRepository.php:108-111 | provisions the table and removes every row, answering how many were removed |
| `Refactorer.Execution` | src/Refactorer.php:25-60 | every failure leaves the rows unchanged. Only `up`/`down` write. A successful `up` required "not run" and appends `(c, NULL, last+1)`. A successful `down` required "run" and leaves exactly `Without(rows, c)`: every row for `c` is removed and no other. Success holds iff the class exists, declares the method, the unit returns and the ran/not-ran guard passes |
| `Refactorer.Execute` | src/Refactorer.php:25-60 | the table exists afterwards whatever the outcome; outcome and rows are as `Execution` gives them |
| `Refactorer.UpIsNotRepeated` | src/Refactorer.php:40-56 | after one successful `up`, the class has exactly one row and a second `up` fails with AlreadyRan, changing nothing |
| `Refactorer.UpThenDownRestores` | src/Refactorer.php:40-56 | `up` then `down` both succeed and give back exactly the original rows; `up` is then allowed again |
| `Refactorer.DownWithoutUpIsRefused` | src/Refactorer.php:45-48 | `down` on a class without rows fails with NotYetRan and changes nothing |
| `Refactorer.MissingMethodIsRefused` | src/Refactorer.php:33-38 | `up`/`down` on a class that does not declare it fails before the ledger is consulted and changes nothing |
| `Refactorer.RaisingUnitWritesNothing` | src/Refactorer.php:50-56 | a refactor method that raises makes the execution fail with the ledger unchanged |
| `Refactorer.AsWrittenNeverRuns` | src/Refactorer.php:40 | as written, the call to the undefined `hasRun` makes every execution that passes the method checks fail, with nothing written |
| `Refactorer.AsWrittenRefusesFirstUp` | src/Refactorer.php:40 | on an empty ledger, a class with `up` and `down` is logged by the corrected engine but refused by the code as written |
| `RefactorListener.EventKind` | src/Listeners/RefactorListener.php:70-84 | the event is a before-event iff the notification is "started", and an up-event iff the migration's method is `up` |
| `RefactorListener.OnMigration` | src/Listeners/RefactorListener.php:57-62 | a migration without `refactor()` dispatches nothing. Otherwise exactly one event is dispatched, carrying the named class, the originating notification and the selected kind |
| `RefactorListener.OnRefactor` | src/Listeners/RefactorListener.php:38-49 | an event for a class that does not exist fails without touching the store; otherwise the engine runs with the event's method |
| `RefactorListener.PlainMigrationIsIgnored` | src/Listeners/RefactorListener.php:57-62 | a migration without `refactor()` produces no event and leaves the ledger alone |
| `RefactorListener.BeforeEventComesFirst` | src/Listeners/RefactorListener.php:57-84 | for one migration, started then ended gives the before-event first and the main event second. Both name the same class and their own notifications |
| `RefactorListener.UnknownClassIsRefused` | src/Listeners/RefactorListener.php:38-42 | an event naming a class that does not exist is refused with the ledger unchanged |
| `RefactorListener.MigrateUpRunsRefactor` | src/Listeners/RefactorListener.php:38-84 | migrating up runs `beforeUp` without writing, then `up`, which logs the refactor. It is recorded only after the ended notification |
| `RefactorListener.MigrateDownRollsBackRefactor` | src/Listeners/RefactorListener.php:38-84 | migrating down after the refactor ran removes all of its rows |
| `RefactorListener.MissingBeforeHookFailsStart` | src/Refactorer.php:50-52 | a refactor class without `beforeUp` makes the started step fail, writing nothing |
| `StatusCommand.LastIndexFor` | src/Commands/RefactorStatusCommand.php:35-41 | keying the run records by class keeps the record at the last position naming the class; no later record names it, and there is none (-1) when no record does |
| `StatusCommand.StatusFor` | src/Commands/RefactorStatusCommand.php:34-55 | there is one row per discovered class, in order, each for its own class. "Ran" holds iff some run record names the class. Batch and migration come from the last such record, with '-' for a falsy migration; a class that has not run shows '-' and no batch |
| `StatusCommand.Handle` | src/Commands/RefactorStatusCommand.php:22-32 | the "No refactors found" error comes exactly when no class was discovered; otherwise the table has one row per class |
| `StatusCommand.OneOfTwoRan` | src/Commands/RefactorStatusCommand.php:34-55 | with A run (batch 1, migration M1) and B not, the rows read `Yes A M1 1` and `No B - (none)` |
| `DbCommand.Handle` | src/Commands/RefactorDbCommand.php:31-43 | a class that does not exist is refused before the store is touched; otherwise the engine runs with the mapped method |
| `DbCommand.RollbackRunsDown` | src/Commands/RefactorDbCommand.php:39-42 | with `--rollback` the command is the engine's `down` |
| `DbCommand.ForwardRunIgnoresLedger` | src/Commands/RefactorDbCommand.php:41-42 | without `--rollback` (method `run`) the ledger is never written, and the outcome does not depend on it |
| `DbCommand.RollbackOfUnranClassFails` | src/Commands/RefactorDbCommand.php:39-42 | rolling back a class that never ran fails and leaves the ledger unchanged |
| `InstallCommand.Handle` | src/Commands/RefactorInstallCommand.php:31-40 | the store ends as `Installed` describes |
| `InstallCommand.InstallProvisions` | src/Commands/RefactorInstallCommand.php:34-38 | afterwards the table exists and `repositoryExists()` is true. An existing table keeps its rows; a created one is empty |
| `InstallCommand.InstallIsIdempotent` | src/Commands/RefactorInstallCommand.php:31-40 | installing twice equals installing once |
| `ResetCommand.Handle` | src/Commands/RefactorResetCommand.php:31-40 | the store ends as `ResetEffect` describes |
| `ResetCommand.ResetClearsLedger` | src/Commands/RefactorResetCommand.php:34-38 | reset never creates or drops the table; afterwards there are no rows and no class counts as run |
| `ResetCommand.ResetIsIdempotent` | src/Commands/RefactorResetCommand.php:31-40 | resetting twice equals resetting once |

## Left out

- StatusCommand.StatusFor: for a discovered class with no run record, `$batches->get($class)` is null and the command then reads `['batch']` and `['migration']` from null (src/Commands/RefactorStatusCommand.php:46-48). The model reads both as null, giving the row `No, class, '-', (empty)`. On PHP 7.4 and later that read emits a notice or warning, which Laravel's error handler turns into an exception, so the command may abort there instead. That abort is not modelled.
- Database plumbing is not modelled: the connection resolver, schema builder, query builder, `useWritePdo` and `getConnection`. The table is an in-memory sequence of rows.
- The surrogate `id` column is not modelled; rows keep their insertion order instead.
- The `batch` column's integer width is not modelled; batches are unbounded integers.
- Store failures (an unreachable or misconfigured database) are not modelled. The only insert failure is the unique-index rejection, which `log` swallows like any other.
- Uniqueness for NULL migrations is engine-dependent. The model treats NULLs as distinct, so rows with a NULL migration never collide.
- Console output and timing are left out: `setConsoleOutput`, `getConsole`, the `info`/`error`/`table` calls, `microtime` and the float formatting of elapsed time.
- Reflection and dynamic instantiation (`ReflectionClass`, `class_exists`, `new $class`) become a registry of class names and their declared methods. A registry's method set stands for the answers of `hasMethod` and of the dynamic call, which in PHP match method names case-insensitively: a class declaring `Up()` is registered with `up`. Inherited and magic (`__call`) methods are not modelled, and a refactor method's own side effects are reduced to "returns" or "raises".
- The event bus is not modelled: `event(...)`, `subscribe`, the service provider and `app()->call`. A notification yields its list of refactor events, and `RefactorListener.Dispatch` delivers that list to `onRefactor`.
- `RefactorListener::listenForPretend` is left out. It reads the process arguments and calls a `pretendToExecute` method, which the engine does not define.
- The refactor event classes (`RefactorUp`, `RefactorBeforeUp`, ...) are not part of this model. `BaseEvent` never sets `method`, so the model assumes each kind asks for its own method (`beforeUp`, `beforeDown`, `up`, `down`).
- `onRefactor` passes the migration's class name where `execute` expects the repository. The model passes the ledger repository.
- The unqualified `Exception` in src/Refactorer.php:34,37 would itself fail to resolve. Either way an error is raised, so every error is one `ExecError` outcome.
- `getRun` and `getRefactorClasses` are not part of this model. The status projection takes their results (run records in order, discovered class names in order) as inputs.
- `RefactorMakeCommand` (scaffolding) is not part of this model.

## Findings

| source | as written | input that shows it | evidently intended | confidence | as-written member | corrected member |
|---|---|---|---|---|---|---|
| src/Refactorer.php:40 | `execute` calls `$repository->hasRun($class)`, but the repository defines only `hasRan` (src/Repositories/DatabaseRefactorRepository.php:98), so the call raises | `execute('A', 'up', repository)` on an empty ledger, where A declares `up` and `down` | ask `hasRan($class)`, so `up` logs A in batch 1 | medium (the repository interface is not part of this model), not executed | `Refactorer.AsWrittenRefusesFirstUp` | `Refactorer.Execution` |
