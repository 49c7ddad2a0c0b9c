/**
 * `refactor:status`: joins the discovered refactor classes against the run
 * records and reports one row per class (Ran?, Refactor, Migration, Batch).
 *
 * The run records and the discovered classes are inputs here; the
 * repository calls that would produce them are not part of this model.
 */
module StatusCommand {
  import opened Wrappers
  import opened Repositories

  /** One line of the status table. `batch` is None where PHP shows an empty cell. */
  datatype Row = Row(ran: bool, cls: string, migration: string, batch: Option<int>)

  /** The position of the last run record naming c, or -1 when none does. */
  function LastIndexFor(run: seq<Record>, c: string): (r: int)
    ensures -1 <= r < |run|
    ensures r >= 0 ==> run[r].refactor == c
    ensures forall k | r < k < |run| :: run[k].refactor != c
    decreases |run|
  {
    if run == [] then -1
    else if run[|run| - 1].refactor == c then |run| - 1
    else
      var front := run[..|run| - 1];
      assert forall k | 0 <= k < |front| :: front[k] == run[k];
      LastIndexFor(front, c)
  }

  /** `keyBy('refactor')` keeps, for each class, the last run record that names it. */
  function LastRecordFor(run: seq<Record>, c: string): Option<Record> {
    var i := LastIndexFor(run, c);
    if i < 0 then None else Some(run[i])
  }

  /** PHP truthiness of a migration name: NULL, "" and "0" are false. */
  predicate Truthy(m: Option<string>) {
    m.Some? && m.value != "" && m.value != "0"
  }

  /** The migration cell: the name when it is truthy, '-' otherwise. */
  function MigrationCell(m: Option<string>): string {
    if Truthy(m) then m.value else "-"
  }

  /** The keys of `pluck('migration', 'refactor')`: every class some run record names. */
  function RunClasses(run: seq<Record>): set<string> {
    set x | x in run :: x.refactor
  }

  /** The row for one discovered class. */
  function StatusRow(run: seq<Record>, c: string): Row {
    var last := LastRecordFor(run, c);
    var migration := if last.Some? then last.value.migration else None;
    var number := if last.Some? then Some(last.value.batch) else None;
    Row(c in RunClasses(run), c, MigrationCell(migration), number)
  }

  /** A row reports class c as the last run record for c says, or as not run when there is none. */
  ghost predicate ReportsRun(run: seq<Record>, c: string, row: Row) {
    && row.cls == c
    && (row.ran <==> exists j | 0 <= j < |run| :: run[j].refactor == c)
    && (!row.ran ==> row.migration == "-" && row.batch == None)
    && (row.ran ==> exists j | 0 <= j < |run| ::
          && run[j].refactor == c
          && (forall k | j < k < |run| :: run[k].refactor != c)
          && row.batch == Some(run[j].batch)
          && row.migration == MigrationCell(run[j].migration))
  }

  /** `getStatusFor(run, classes)`: exactly one row per discovered class, in their order; other run records give no row. */
  function StatusFor(run: seq<Record>, classes: seq<string>): (rows: seq<Row>)
    ensures |rows| == |classes|
    ensures forall i | 0 <= i < |rows| :: ReportsRun(run, classes[i], rows[i])
    ensures forall row | row in rows :: row.cls in classes
  {
    var rows := seq(|classes|, i requires 0 <= i < |classes| => StatusRow(run, classes[i]));
    assert forall i | 0 <= i < |rows| :: ReportsRun(run, classes[i], rows[i]) by {
      forall i | 0 <= i < |rows|
        ensures ReportsRun(run, classes[i], rows[i])
      {
        var c := classes[i];
        var last := LastIndexFor(run, c);
        assert c in RunClasses(run) <==> last >= 0 by {
          if c in RunClasses(run) {
            var x :| x in run && x.refactor == c;
            var j :| 0 <= j < |run| && run[j] == x;
          }
          if last >= 0 {
            assert run[last] in run;
          }
        }
      }
    }
    rows
  }

  /** What `handle` shows: the table, or the error "No refactors found". */
  datatype Report = StatusTable(rows: seq<Row>) | NoRefactorsFound

  /** `handle()`: an error exactly when no refactor class was discovered. */
  function Handle(run: seq<Record>, classes: seq<string>): (r: Report)
    ensures r.NoRefactorsFound? <==> classes == []
    ensures r.StatusTable? ==> |r.rows| == |classes| > 0
  {
    var rows := StatusFor(run, classes);
    if |rows| > 0 then StatusTable(rows) else NoRefactorsFound
  }

  /** Units A and B where only A ran, in batch 1 for migration M1: A shows as run with M1 and 1, B as not run. */
  lemma OneOfTwoRan()
    ensures StatusFor([Record("A", Some("M1"), 1)], ["A", "B"])
            == [Row(true, "A", "M1", Some(1)), Row(false, "B", "-", None)]
  {
    var run := [Record("A", Some("M1"), 1)];
    assert run[0] in run;
    assert "A" in RunClasses(run);
    assert "B" !in RunClasses(run);
  }
}
