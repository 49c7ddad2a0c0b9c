/**
 * The refactor run-ledger: the `refactors` table with columns
 * (refactor, migration?, batch) and a unique index on (refactor, migration),
 * and the repository object that provisions it lazily and caches whether it
 * exists.
 *
 * The table's rows are kept as a sequence in insertion order; the surrogate
 * `id` column is not modelled.
 */
module Repositories {
  import opened Wrappers

  /** One row of the ledger: a refactor class, the migration that triggered it (NULL when run directly), its batch. */
  datatype Record = Record(refactor: string, migration: Option<string>, batch: int)

  // ---------------------------------------------------------------------------
  // The unique index on (refactor, migration)
  // ---------------------------------------------------------------------------

  /** Two rows collide under the unique index. A NULL migration never collides (SQL treats NULLs as distinct). */
  predicate SamePair(a: Record, b: Record) {
    a.migration.Some? && a.refactor == b.refactor && a.migration == b.migration
  }

  /** The unique index holds: no two distinct rows collide. */
  ghost predicate UniquePairs(s: seq<Record>) {
    forall i, j | 0 <= i < |s| && 0 <= j < |s| && i != j :: !SamePair(s[i], s[j])
  }

  /** A row for the pair (c, m) with a non-null migration m is already stored. */
  predicate PairPresent(s: seq<Record>, c: string, m: string) {
    exists i | 0 <= i < |s| :: s[i].refactor == c && s[i].migration == Some(m)
  }

  // ---------------------------------------------------------------------------
  // Queries on the rows
  // ---------------------------------------------------------------------------

  /** `where('refactor', c)->count()`. */
  function Count(s: seq<Record>, c: string): (n: nat)
    ensures n <= |s|
  {
    if s == [] then 0
    else (if s[0].refactor == c then 1 else 0) + Count(s[1..], c)
  }

  /** `hasRan(c)`: the count of rows for c is positive. */
  predicate Ran(s: seq<Record>, c: string) {
    Count(s, c) > 0
  }

  /** `hasRan(c)` holds exactly when some row names c, whatever its migration. */
  lemma {:induction false} RanIff(s: seq<Record>, c: string)
    ensures Ran(s, c) <==> exists i | 0 <= i < |s| :: s[i].refactor == c
  {
    if s != [] {
      RanIff(s[1..], c);
      if s[0].refactor != c {
        if exists i | 0 <= i < |s| :: s[i].refactor == c {
          var i :| 0 <= i < |s| && s[i].refactor == c;
          assert s[1..][i - 1].refactor == c;
        }
        if exists k | 0 <= k < |s[1..]| :: s[1..][k].refactor == c {
          var k :| 0 <= k < |s[1..]| && s[1..][k].refactor == c;
          assert s[k + 1].refactor == c;
        }
      }
    }
  }

  /** `(integer) max('batch')`: the largest stored batch, 0 on an empty table. */
  function LastBatch(s: seq<Record>): (m: int)
    ensures s == [] ==> m == 0
    ensures forall i | 0 <= i < |s| :: s[i].batch <= m
    ensures s != [] ==> exists i | 0 <= i < |s| :: s[i].batch == m
  {
    if s == [] then 0
    else if |s| == 1 then s[0].batch
    else
      var rest := LastBatch(s[1..]);
      assert forall i | 1 <= i < |s| :: s[i] == s[1..][i - 1];
      if s[0].batch >= rest then s[0].batch else rest
  }

  // ---------------------------------------------------------------------------
  // Updates of the rows
  // ---------------------------------------------------------------------------

  /** An insert that the unique index may reject; `log` swallows the rejection, so the rows stay as they were. */
  function Insert(s: seq<Record>, row: Record): seq<Record> {
    if row.migration.Some? && PairPresent(s, row.refactor, row.migration.value) then s
    else s + [row]
  }

  /** The rows after `log(c, migration, batch)`: a missing batch defaults to the last batch plus one. */
  function Logged(s: seq<Record>, c: string, migration: Option<string>, batch: Option<int>): seq<Record> {
    Insert(s, Record(c, migration, batch.GetOr(LastBatch(s) + 1)))
  }

  /** The rows after `delete(c)`: every row for c is gone, every other row stays, in order. */
  function Without(s: seq<Record>, c: string): (r: seq<Record>)
    ensures forall x :: x in r <==> x in s && x.refactor != c
    ensures |r| == |s| - Count(s, c)
    ensures Count(r, c) == 0
    ensures Count(s, c) == 0 ==> r == s
  {
    if s == [] then []
    else if s[0].refactor == c then Without(s[1..], c)
    else
      var rest := Without(s[1..], c);
      assert ([s[0]] + rest)[1..] == rest;
      [s[0]] + rest
  }

  // ---------------------------------------------------------------------------
  // Properties of log and delete
  // ---------------------------------------------------------------------------

  lemma {:induction false} CountAppend(s: seq<Record>, x: Record, c: string)
    ensures Count(s + [x], c) == Count(s, c) + (if x.refactor == c then 1 else 0)
  {
    if s != [] {
      assert (s + [x])[1..] == s[1..] + [x];
      CountAppend(s[1..], x, c);
    }
  }

  /** Without a batch, `log` appends exactly one row whose batch exceeds every stored batch, and it becomes the last batch. */
  lemma LogDefaultBatch(s: seq<Record>, c: string, m: Option<string>)
    requires m.None? || !PairPresent(s, c, m.value)
    ensures Logged(s, c, m, None) == s + [Record(c, m, LastBatch(s) + 1)]
    ensures forall i | 0 <= i < |s| :: s[i].batch < LastBatch(s) + 1
    ensures LastBatch(Logged(s, c, m, None)) == LastBatch(s) + 1
  {
    var r := s + [Record(c, m, LastBatch(s) + 1)];
    assert r[|s|].batch == LastBatch(s) + 1;
  }

  /** With a batch, `log` appends exactly the row (c, m, b) and changes nothing else. */
  lemma LogExplicitBatch(s: seq<Record>, c: string, m: Option<string>, b: int)
    requires m.None? || !PairPresent(s, c, m.value)
    ensures Logged(s, c, m, Some(b)) == s + [Record(c, m, b)]
  {
  }

  /** Logging a pair already stored with a non-null migration is swallowed: the rows are unchanged. */
  lemma LogDuplicateIsNoop(s: seq<Record>, c: string, m: string, b: Option<int>)
    requires PairPresent(s, c, m)
    ensures Logged(s, c, Some(m), b) == s
  {
  }

  /** Logging the same class for the same non-null migration twice leaves exactly what logging it once left. */
  lemma LogSamePairTwice(s: seq<Record>, c: string, m: string, b1: Option<int>, b2: Option<int>)
    ensures Logged(Logged(s, c, Some(m), b1), c, Some(m), b2) == Logged(s, c, Some(m), b1)
  {
    var once := Logged(s, c, Some(m), b1);
    if !PairPresent(s, c, m) {
      assert once[|s|].refactor == c && once[|s|].migration == Some(m);
    }
    assert PairPresent(once, c, m);
  }

  /** Logging one class for two different migrations stores two rows, one per migration. */
  lemma LogTwoMigrations(s: seq<Record>, c: string, m1: string, m2: string, b1: int, b2: int)
    requires m1 != m2
    requires !PairPresent(s, c, m1) && !PairPresent(s, c, m2)
    ensures Logged(Logged(s, c, Some(m1), Some(b1)), c, Some(m2), Some(b2))
            == s + [Record(c, Some(m1), b1), Record(c, Some(m2), b2)]
  {
    var once := s + [Record(c, Some(m1), b1)];
    assert !PairPresent(once, c, m2) by {
      forall i | 0 <= i < |once|
        ensures !(once[i].refactor == c && once[i].migration == Some(m2))
      {
        if i < |s| {
          assert once[i] == s[i];
        }
      }
    }
  }

  /** After `log(c, ...)` the class counts as run, whether the row was inserted or swallowed as a duplicate. */
  lemma LogMarksRan(s: seq<Record>, c: string, m: Option<string>, b: Option<int>)
    ensures Ran(Logged(s, c, m, b), c)
  {
    var row := Record(c, m, b.GetOr(LastBatch(s) + 1));
    if m.Some? && PairPresent(s, c, m.value) {
      RanIff(s, c);
    } else {
      CountAppend(s, row, c);
    }
  }

  /** `log` keeps the unique index on (refactor, migration). */
  lemma LogKeepsPairsUnique(s: seq<Record>, c: string, m: Option<string>, b: Option<int>)
    requires UniquePairs(s)
    ensures UniquePairs(Logged(s, c, m, b))
  {
    var row := Record(c, m, b.GetOr(LastBatch(s) + 1));
    if !(m.Some? && PairPresent(s, c, m.value)) {
      var r := s + [row];
      forall i, j | 0 <= i < |r| && 0 <= j < |r| && i != j
        ensures !SamePair(r[i], r[j])
      {
        if i == |s| {
          assert !(r[j].refactor == c && r[j].migration == m && m.Some?);
        } else if j == |s| {
          assert !(r[i].refactor == c && r[i].migration == m && m.Some?);
        }
      }
    }
  }

  /** Uniqueness of a sequence with a head: the tail is unique and the head collides with none of it. */
  lemma UniqueConsElim(s: seq<Record>)
    requires s != [] && UniquePairs(s)
    ensures UniquePairs(s[1..])
    ensures forall y | y in s[1..] :: !SamePair(s[0], y) && !SamePair(y, s[0])
  {
    var t := s[1..];
    forall i, j | 0 <= i < |t| && 0 <= j < |t| && i != j
      ensures !SamePair(t[i], t[j])
    {
      assert t[i] == s[i + 1] && t[j] == s[j + 1];
    }
    forall y | y in t
      ensures !SamePair(s[0], y) && !SamePair(y, s[0])
    {
      var p :| 0 <= p < |t| && t[p] == y;
      assert s[p + 1] == y;
    }
  }

  /** A unique sequence extended at the front by a row that collides with none of it stays unique. */
  lemma UniqueConsIntro(x: Record, t: seq<Record>)
    requires UniquePairs(t)
    requires forall y | y in t :: !SamePair(x, y) && !SamePair(y, x)
    ensures UniquePairs([x] + t)
  {
    var r := [x] + t;
    forall i, j | 0 <= i < |r| && 0 <= j < |r| && i != j
      ensures !SamePair(r[i], r[j])
    {
      if i == 0 {
        assert r[j] == t[j - 1];
      } else if j == 0 {
        assert r[i] == t[i - 1];
      } else {
        assert r[i] == t[i - 1] && r[j] == t[j - 1];
      }
    }
  }

  /** `delete` keeps the unique index on (refactor, migration). */
  lemma {:induction false} DeleteKeepsPairsUnique(s: seq<Record>, c: string)
    requires UniquePairs(s)
    ensures UniquePairs(Without(s, c))
  {
    if s != [] {
      UniqueConsElim(s);
      DeleteKeepsPairsUnique(s[1..], c);
      if s[0].refactor != c {
        UniqueConsIntro(s[0], Without(s[1..], c));
      }
    }
  }

  /** `delete(c)` removes the rows for c and no others: every other row keeps its number of copies. */
  lemma {:induction false} WithoutKeepsOtherRows(s: seq<Record>, c: string, x: Record)
    ensures multiset(Without(s, c))[x] == (if x.refactor == c then 0 else multiset(s)[x])
  {
    if s != [] {
      assert s == [s[0]] + s[1..];
      WithoutKeepsOtherRows(s[1..], c, x);
    }
  }

  /** Deleting after appending one row: the row survives exactly when it belongs to another class. */
  lemma {:induction false} WithoutAppend(s: seq<Record>, x: Record, c: string)
    ensures Without(s + [x], c) == Without(s, c) + (if x.refactor == c then [] else [x])
  {
    if s != [] {
      assert (s + [x])[1..] == s[1..] + [x];
      WithoutAppend(s[1..], x, c);
    }
  }

  /** The rows after logging each class of `cs` in turn, directly (NULL migration) and with the default batch. */
  function LogEach(s: seq<Record>, cs: seq<string>): seq<Record>
    decreases cs
  {
    if cs == [] then s else LogEach(Logged(s, cs[0], None, None), cs[1..])
  }

  /** Batches grow by one per default-batch log: after N of them the last batch is N more than before. */
  lemma {:induction false} LogEachAdvancesBatch(s: seq<Record>, cs: seq<string>)
    ensures LastBatch(LogEach(s, cs)) == LastBatch(s) + |cs|
    decreases cs
  {
    if cs != [] {
      LogDefaultBatch(s, cs[0], None);
      LogEachAdvancesBatch(Logged(s, cs[0], None, None), cs[1..]);
    }
  }

  // ---------------------------------------------------------------------------
  // The store and the repository's cache
  // ---------------------------------------------------------------------------

  /** What the database holds (is the table there, and its rows) and the repository's cached `exists` flag. */
  datatype StoreState = StoreState(hasTable: bool, cache: Option<bool>, records: seq<Record>)

  /** No rows without a table, a cached answer agrees with the store, and the unique index holds. */
  ghost predicate Consistent(st: StoreState) {
    && (!st.hasTable ==> st.records == [])
    && (st.cache.Some? ==> st.cache.value == st.hasTable)
    && UniquePairs(st.records)
  }

  /** The answer of `repositoryExists()`: the cached flag, or else the schema's `hasTable`. */
  function ExistsAnswer(st: StoreState): (b: bool)
    ensures Consistent(st) ==> b == st.hasTable
  {
    st.cache.GetOr(st.hasTable)
  }

  /** The state after `repositoryExists()`: its first answer is cached. */
  function AfterExistsQuery(st: StoreState): StoreState {
    st.(cache := Some(ExistsAnswer(st)))
  }

  /** The state right after `createRepository()` on a store without the table. */
  const NewTable := StoreState(true, Some(true), [])

  /** The state after `check()`, which every table access runs first: the table is there, cached as present, with the same rows. */
  function Provisioned(st: StoreState): (p: StoreState)
    ensures Consistent(st) ==> p == StoreState(true, Some(true), st.records)
    ensures Consistent(st) ==> Consistent(p)
  {
    if st.cache == Some(true) then st
    else
      var q := AfterExistsQuery(st);
      if ExistsAnswer(q) then q else NewTable
  }

  /** Outcome of the schema builder's `create`, which fails when the table is already there. */
  datatype SchemaResult = TableCreated | TableAlreadyExists

  /** The repository object: a cached `exists` flag over a store holding the `refactors` table. */
  class DatabaseRefactorRepository {
    var storeHasTable: bool
    var cachedExists: Option<bool>
    var records: seq<Record>

    function State(): StoreState
      reads this
    {
      StoreState(storeHasTable, cachedExists, records)
    }

    ghost predicate Valid()
      reads this
    {
      Consistent(State())
    }

    /** A fresh repository object over a store in the given condition; nothing is cached yet. */
    constructor (hasTable: bool, stored: seq<Record>)
      requires Consistent(StoreState(hasTable, None, stored))
      ensures Valid() && State() == StoreState(hasTable, None, stored)
    {
      storeHasTable := hasTable;
      cachedExists := None;
      records := stored;
    }

    /** `createRepository()`: creates the empty table and sets the cache; fails, changing nothing, if the table exists. */
    method CreateRepository() returns (r: SchemaResult)
      requires Valid()
      modifies this
      ensures Valid()
      ensures r == (if old(storeHasTable) then TableAlreadyExists else TableCreated)
      ensures State() == if old(storeHasTable) then old(State()) else NewTable
    {
      if storeHasTable {
        return TableAlreadyExists;
      }
      storeHasTable, records := true, [];
      cachedExists := Some(true);
      r := TableCreated;
    }

    /** `repositoryExists()`: answers whether the table is there and caches the first answer. */
    method RepositoryExists() returns (b: bool)
      requires Valid()
      modifies this
      ensures Valid()
      ensures b == old(storeHasTable)
      ensures State() == AfterExistsQuery(old(State()))
    {
      if cachedExists.None? {
        cachedExists := Some(storeHasTable);
      }
      b := cachedExists.value;
    }

    /** `check()`: creates the table unless the cache or the schema says it is there. */
    method Check()
      requires Valid()
      modifies this
      ensures Valid()
      ensures State() == Provisioned(old(State()))
    {
      if cachedExists != Some(true) {
        var present := RepositoryExists();
        if !present {
          var created := CreateRepository();
        }
      }
    }

    /** `getLastBatchNumber()`. */
    method GetLastBatchNumber() returns (n: int)
      requires Valid()
      modifies this
      ensures Valid()
      ensures State() == Provisioned(old(State()))
      ensures n == LastBatch(records)
    {
      Check();
      n := LastBatch(records);
    }

    /** `log(c, migration, batch)`: inserts one row; a rejection by the unique index is swallowed. */
    method Log(c: string, migration: Option<string>, batch: Option<int>)
      requires Valid()
      modifies this
      ensures Valid()
      ensures storeHasTable && cachedExists == Some(true)
      ensures records == Logged(old(records), c, migration, batch)
    {
      var b: int;
      if batch.Some? {
        b := batch.value;
      } else {
        var last := GetLastBatchNumber();
        b := last + 1;
      }
      Check();
      assert records == old(records);
      LogKeepsPairsUnique(records, c, migration, batch);
      var row := Record(c, migration, b);
      assert Logged(records, c, migration, batch) == Insert(records, row);
      // a row whose (refactor, migration) pair is stored is refused by the index, and the error is caught
      if !(migration.Some? && PairPresent(records, c, migration.value)) {
        records := records + [row];
      }
    }

    /** `delete(c)`: removes every row for c and answers how many were removed. */
    method Delete(c: string) returns (deleted: nat)
      requires Valid()
      modifies this
      ensures Valid()
      ensures storeHasTable && cachedExists == Some(true)
      ensures records == Without(old(records), c)
      ensures deleted == Count(old(records), c)
    {
      Check();
      DeleteKeepsPairsUnique(records, c);
      deleted := Count(records, c);
      records := Without(records, c);
    }

    /** `hasRan(c)`. */
    method HasRan(c: string) returns (ran: bool)
      requires Valid()
      modifies this
      ensures Valid()
      ensures State() == Provisioned(old(State()))
      ensures ran == Ran(records, c)
    {
      Check();
      ran := Count(records, c) > 0;
    }

    /** `reset()`: removes every row and answers how many were removed. */
    method Reset() returns (deleted: nat)
      requires Valid()
      modifies this
      ensures Valid()
      ensures State() == StoreState(true, Some(true), [])
      ensures deleted == |old(records)|
    {
      Check();
      deleted := |records|;
      records := [];
    }
  }
}
