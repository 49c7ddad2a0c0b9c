/**
 * The execution engine: `execute(class, method, repository)` checks that the
 * refactor class has the method asked for, refuses `up` on a class that has
 * run and `down` on one that has not, invokes the method, and only then
 * writes the ledger (`log` after `up`, `delete` after `down`).
 *
 * PHP's class table is replaced by a registry from class name to the names of
 * the methods the class declares; what the invoked method does is abstracted
 * to whether it returns or raises.
 */
module Refactorer {
  import opened Wrappers
  import opened Repositories

  const Up := "up"
  const Down := "down"
  const BeforeUp := "beforeUp"
  const BeforeDown := "beforeDown"
  /** The legacy name still used by `db:refactor` for a forward run. */
  const Run := "run"

  /** The methods whose success is written to the ledger. */
  const RequiredMethods: set<string> := {Up, Down}

  /** The refactor classes that can be loaded, each with the names of its methods. */
  type Registry = map<string, set<string>>

  /** How the refactor's own method ends. */
  datatype UnitResult = Returns | Raises

  datatype ExecError =
    | UnknownClass(cls: string)                      // the class cannot be reflected / does not exist
    | MissingRequiredMethod(cls: string, methodName: string) // `up` or `down` asked for but not declared
    | AlreadyRan(cls: string)                        // `up` on a class the ledger shows as run
    | NotYetRan(cls: string)                         // `down` on a class the ledger does not show
    | UndefinedMethod(cls: string, methodName: string)   // any other method the class does not declare
    | UnitRaised(cls: string, methodName: string)        // the refactor's method itself raised
    | UndefinedRepositoryMethod(name: string)            // the engine calls a method the repository lacks

  datatype Outcome = Done | Failed(error: ExecError)

  /** The outcome of one execution and the ledger rows after it. */
  datatype Transition = Transition(outcome: Outcome, records: seq<Record>)

  /**
   * What `execute` does to the ledger rows. Every failure leaves them as they
   * were; only a successful `up` or `down` writes, and the write is the `log`
   * or `delete` of the ledger.
   */
  function Execution(records: seq<Record>, registry: Registry, cls: string, methodName: string, unit: UnitResult): (t: Transition)
    ensures t.outcome.Failed? ==> t.records == records
    ensures methodName !in RequiredMethods ==> t.records == records
    ensures t.outcome == Done && methodName == Up ==>
              !Ran(records, cls) && t.records == records + [Record(cls, None, LastBatch(records) + 1)]
    ensures t.outcome == Done && methodName == Down ==>
              Ran(records, cls) && !Ran(t.records, cls) && t.records == Without(records, cls)
              && forall x :: x in t.records <==> x in records && x.refactor != cls
    ensures t.outcome == Done <==>
              && cls in registry && methodName in registry[cls] && unit.Returns?
              && (methodName == Up ==> !Ran(records, cls))
              && (methodName == Down ==> Ran(records, cls))
  {
    if cls !in registry then Transition(Failed(UnknownClass(cls)), records)
    else if methodName == Up && Up !in registry[cls] then Transition(Failed(MissingRequiredMethod(cls, Up)), records)
    else if methodName == Down && Down !in registry[cls] then Transition(Failed(MissingRequiredMethod(cls, Down)), records)
    else if methodName == Up && Ran(records, cls) then Transition(Failed(AlreadyRan(cls)), records)
    else if methodName == Down && !Ran(records, cls) then Transition(Failed(NotYetRan(cls)), records)
    else if methodName !in registry[cls] then Transition(Failed(UndefinedMethod(cls, methodName)), records)
    else if unit.Raises? then Transition(Failed(UnitRaised(cls, methodName)), records)
    else if methodName == Down then Transition(Done, Without(records, cls))
    else if methodName == Up then
      Transition(Done, Logged(records, cls, None, None))
    else Transition(Done, records)
  }

  /** `execute(class, method, repository)`: provisions the ledger first, whatever follows. */
  method Execute(cls: string, methodName: string, repository: DatabaseRefactorRepository, registry: Registry, unit: UnitResult)
    returns (outcome: Outcome)
    requires repository.Valid()
    modifies repository
    ensures repository.Valid()
    ensures repository.storeHasTable && repository.cachedExists == Some(true)
    ensures Transition(outcome, repository.records) == Execution(old(repository.records), registry, cls, methodName, unit)
  {
    var present := repository.RepositoryExists();
    if !present {
      var created := repository.CreateRepository();
    }
    if cls !in registry {
      return Failed(UnknownClass(cls));
    }
    var methods := registry[cls];
    if methodName == Up && Up !in methods {
      return Failed(MissingRequiredMethod(cls, Up));
    } else if methodName == Down && Down !in methods {
      return Failed(MissingRequiredMethod(cls, Down));
    }
    var hasRun := repository.HasRan(cls);
    if methodName == Up && hasRun {
      return Failed(AlreadyRan(cls));
    } else if methodName == Down && !hasRun {
      return Failed(NotYetRan(cls));
    }
    // the refactor's method is invoked; a class without it raises "undefined method"
    if methodName !in methods {
      return Failed(UndefinedMethod(cls, methodName));
    }
    if unit == Raises {
      return Failed(UnitRaised(cls, methodName));
    }
    if methodName in RequiredMethods {
      if methodName == Down {
        var deleted := repository.Delete(cls);
      } else {
        repository.Log(cls, None, None);
      }
    }
    outcome := Done;
  }

  // ---------------------------------------------------------------------------
  // The run/rollback state machine
  // ---------------------------------------------------------------------------

  /** A class that can run forward and back. */
  predicate Reversible(registry: Registry, cls: string) {
    cls in registry && Up in registry[cls] && Down in registry[cls]
  }

  /** `up` twice without a `down` between: the second is refused and exactly one row for the class remains. */
  lemma UpIsNotRepeated(s: seq<Record>, registry: Registry, cls: string, unit: UnitResult)
    requires !Ran(s, cls)
    requires Execution(s, registry, cls, Up, Returns).outcome == Done
    ensures var first := Execution(s, registry, cls, Up, Returns).records;
            && Count(first, cls) == 1
            && Execution(first, registry, cls, Up, unit) == Transition(Failed(AlreadyRan(cls)), first)
  {
    var row := Record(cls, None, LastBatch(s) + 1);
    CountAppend(s, row, cls);
  }

  /** `up` then `down` returns the ledger to exactly what it was, and `up` is then allowed again. */
  lemma UpThenDownRestores(s: seq<Record>, registry: Registry, cls: string)
    requires Reversible(registry, cls)
    requires !Ran(s, cls)
    ensures var up := Execution(s, registry, cls, Up, Returns);
            var down := Execution(up.records, registry, cls, Down, Returns);
            && up.outcome == Done && down.outcome == Done
            && down.records == s
            && !Ran(down.records, cls)
            && Execution(down.records, registry, cls, Up, Returns).outcome == Done
  {
    var row := Record(cls, None, LastBatch(s) + 1);
    LogMarksRan(s, cls, None, None);
    WithoutAppend(s, row, cls);
  }

  /** `down` on a class that has not run is refused with NotYetRan and changes nothing. */
  lemma DownWithoutUpIsRefused(s: seq<Record>, registry: Registry, cls: string, unit: UnitResult)
    requires Reversible(registry, cls)
    requires !Ran(s, cls)
    ensures Execution(s, registry, cls, Down, unit) == Transition(Failed(NotYetRan(cls)), s)
  {
  }

  /** `up` or `down` on a class that does not declare it is refused before the ledger is read, and changes nothing. */
  lemma MissingMethodIsRefused(s: seq<Record>, registry: Registry, cls: string, methodName: string, unit: UnitResult)
    requires methodName in RequiredMethods
    requires cls in registry && methodName !in registry[cls]
    ensures Execution(s, registry, cls, methodName, unit) == Transition(Failed(MissingRequiredMethod(cls, methodName)), s)
  {
  }

  /** A refactor method that raises leaves the ledger as it was: the write comes only after the method returns. */
  lemma RaisingUnitWritesNothing(s: seq<Record>, registry: Registry, cls: string, methodName: string)
    ensures Execution(s, registry, cls, methodName, Raises).outcome.Failed?
    ensures Execution(s, registry, cls, methodName, Raises).records == s
  {
  }

  // ---------------------------------------------------------------------------
  // The engine as written: it asks the repository for `hasRun`, which the
  // repository does not define (it defines `hasRan`)
  // ---------------------------------------------------------------------------

  /** `execute` as written: past the method checks, the call to the undefined `hasRun` raises. */
  function ExecutionAsWritten(records: seq<Record>, registry: Registry, cls: string, methodName: string, unit: UnitResult): Transition {
    if cls !in registry then Transition(Failed(UnknownClass(cls)), records)
    else if methodName == Up && Up !in registry[cls] then Transition(Failed(MissingRequiredMethod(cls, Up)), records)
    else if methodName == Down && Down !in registry[cls] then Transition(Failed(MissingRequiredMethod(cls, Down)), records)
    else Transition(Failed(UndefinedRepositoryMethod("hasRun")), records)
  }

  /** As written, no execution ever succeeds or writes the ledger. */
  lemma AsWrittenNeverRuns(s: seq<Record>, registry: Registry, cls: string, methodName: string, unit: UnitResult)
    ensures ExecutionAsWritten(s, registry, cls, methodName, unit).outcome.Failed?
    ensures ExecutionAsWritten(s, registry, cls, methodName, unit).records == s
  {
  }

  /** A class with `up` and `down` on an empty ledger: the corrected engine runs `up`, the code as written raises. */
  lemma AsWrittenRefusesFirstUp()
    ensures var registry: Registry := map["A" := {Up, Down}];
            && Execution([], registry, "A", Up, Returns) == Transition(Done, [Record("A", None, 1)])
            && ExecutionAsWritten([], registry, "A", Up, Returns) == Transition(Failed(UndefinedRepositoryMethod("hasRun")), [])
  {
    var registry: Registry := map["A" := {Up, Down}];
    assert !Ran([], "A");
    assert Logged([], "A", None, None) == [Record("A", None, 1)];
  }
}
