/** `EmployeeManager`: the operations the command line dispatches, run against an
    in-memory `employees` table that stands for the SQLite database file. */
module Manager {
  import opened Outcomes
  import opened Calendar
  import opened DateText
  import opened EmployeeRecord
  import opened Generation
  import opened Table

  class EmployeeManager {
    /** Whether `CREATE TABLE employees` has run. */
    var tableExists: bool
    /** Whether the index `idx_gender_name` on `(gender, full_name)` exists. */
    var indexed: bool
    /** The rows, in insertion order. */
    var rows: seq<Row>
    /** The id AUTOINCREMENT assigns to the next row. */
    var nextId: int

    /** No index or rows without a table; nothing is ever deleted and a failed INSERT
        allocates no id, so the rows carry ids 1, 2, ... in order and `nextId` follows the
        last; every stored birth date parses. */
    ghost predicate Valid()
      reads this
    {
      (!tableExists ==> rows == [] && !indexed) &&
      nextId == |rows| + 1 &&
      (forall i :: 0 <= i < |rows| ==> rows[i].id == i + 1) &&
      (forall i :: 0 <= i < |rows| ==> Parse(rows[i].birthDate).Some?)
    }

    /** A database file without the table. */
    constructor ()
      ensures Valid()
      ensures !tableExists && !indexed && rows == [] && nextId == 1
    {
      tableExists := false;
      indexed := false;
      rows := [];
      nextId := 1;
    }

    /** `create_table`: `CREATE TABLE IF NOT EXISTS`, so a second call changes nothing. */
    method CreateTable()
      requires Valid()
      modifies this
      ensures Valid()
      ensures tableExists
      ensures rows == old(rows) && indexed == old(indexed) && nextId == old(nextId)
    {
      tableExists := true;
    }

    /** One INSERT: the row gets the next id and the date as `strftime` writes it. */
    method InsertRow(e: Employee)
      requires Valid() && tableExists && IsValid(e.birthDate)
      modifies this
      ensures Valid()
      ensures rows == old(rows) + [ToRow(e, old(nextId))] && nextId == old(nextId) + 1
      ensures tableExists && indexed == old(indexed)
    {
      StoredDateParses(e, nextId);
      rows := rows + [ToRow(e, nextId)];
      nextId := nextId + 1;
    }

    /** `add_employee`: the `Employee` is constructed (and its date parsed) before the
        INSERT, so an invalid date leaves the table as it was; a missing table makes the
        INSERT fail. */
    method AddEmployee(fullName: string, birthDateText: string, gender: string) returns (outcome: Outcome)
      requires Valid()
      modifies this
      ensures Valid()
      ensures outcome == if Parse(birthDateText).None? then Fail(ParseError)
                         else if !old(tableExists) then Fail(StorageError)
                         else Pass
      ensures outcome.Fail? ==> rows == old(rows) && nextId == old(nextId)
      ensures outcome.Pass? ==>
                rows == old(rows) + [Row(old(nextId), fullName, Format(Parse(birthDateText).value), gender)] &&
                nextId == old(nextId) + 1
      ensures tableExists == old(tableExists) && indexed == old(indexed)
    {
      var employee := NewEmployee(fullName, birthDateText, gender);
      if employee.Err? {
        return Fail(employee.error);
      }
      if !tableExists {
        return Fail(StorageError);
      }
      InsertRow(employee.value);
      outcome := Pass;
    }

    /** `batch_insert`: `executemany` over the employees in list order; with no table the
        statement fails before any row is written. */
    method BatchInsert(employees: seq<Employee>) returns (outcome: Outcome)
      requires Valid() && AllDatesValid(employees)
      modifies this
      ensures Valid()
      ensures outcome == if old(tableExists) then Pass else Fail(StorageError)
      ensures rows == old(rows) + (if old(tableExists) then RowsFor(employees, old(nextId)) else [])
      ensures nextId == old(nextId) + (if old(tableExists) then |employees| else 0)
      ensures tableExists == old(tableExists) && indexed == old(indexed)
    {
      if !tableExists {
        return Fail(StorageError);
      }
      var i := 0;
      ghost var added: seq<Row> := [];
      while i < |employees|
        invariant 0 <= i <= |employees| && |added| == i
        invariant Valid() && tableExists && indexed == old(indexed)
        invariant rows == old(rows) + added
        invariant forall k :: 0 <= k < i ==> added[k] == ToRow(employees[k], old(nextId) + k)
        invariant nextId == old(nextId) + i
      {
        ghost var before := rows;
        ghost var row := ToRow(employees[i], nextId);
        InsertRow(employees[i]);
        added := added + [row];
        assert old(rows) + added == before + [row];
        i := i + 1;
      }
      RowsForPointwise(added, employees, old(nextId));
      outcome := Pass;
    }

    /** `fill_employees`: builds all 999,900 unmarked and 100 marked records (each
        construction parses its date, and always succeeds), then inserts them in one batch. */
    method FillEmployees(unmarked: seq<Draw>, marked: seq<Draw>) returns (outcome: Outcome)
      requires Valid() && AllUnmarkedDraws(unmarked) && AllMarkedDraws(marked)
      requires |unmarked| == UnmarkedCount && |marked| == MarkedCount
      modifies this
      ensures Valid()
      ensures AllDatesValid(Population(unmarked, marked))
      ensures outcome == if old(tableExists) then Pass else Fail(StorageError)
      ensures rows == old(rows) + (if old(tableExists) then RowsFor(Population(unmarked, marked), old(nextId)) else [])
      ensures tableExists == old(tableExists) && indexed == old(indexed)
    {
      var employees := BuildUnmarked(unmarked);
      var markedEmployees := BuildMarked(marked);
      employees := employees + markedEmployees;
      assert employees == Population(unmarked, marked);
      PopulationDatesValid(unmarked, marked);
      outcome := BatchInsert(employees);
    }

    /** `list_employees`: every row once, ordered by `full_name`, each with the age its
        re-parsed birth date gives on `today`. */
    method ListEmployees(today: Date) returns (outcome: Outcome, listing: seq<Listed>)
      requires Valid()
      ensures outcome == if tableExists then Pass else Fail(StorageError)
      ensures SortedByName(EntriesOf(listing))
      ensures multiset(EntriesOf(listing)) == multiset(Entries(rows))
      ensures forall k :: 0 <= k < |listing| ==> AgeIsCurrent(listing[k], today)
    {
      if !tableExists {
        return Fail(StorageError), [];
      }
      var fetched := SortByName(Entries(rows));
      forall e | e in fetched ensures Parse(e.birthDate).Some? {
        assert e in multiset(fetched);
        EntryDateParses(rows, e);
      }
      listing := WithAges(fetched, today);
      outcome := Pass;
    }

    /** `find_male_f` without its timing: exactly the rows with gender "Male" whose name
        matches `LIKE 'F%'`, each as often as it is stored. The result does not depend on
        `indexed`; its order is left open (an index changes it). */
    method FindMaleF() returns (outcome: Outcome, found: seq<Entry>)
      requires Valid()
      ensures outcome == if tableExists then Pass else Fail(StorageError)
      ensures forall e :: multiset(found)[e] == if MatchesMaleF(e) then multiset(Entries(rows))[e] else 0
      ensures multiset(found) == multiset(MaleF(Entries(rows)))
    {
      if !tableExists {
        return Fail(StorageError), [];
      }
      var fetched := Entries(rows);
      found := SelectMaleF(fetched);
      forall e ensures multiset(found)[e] == if MatchesMaleF(e) then multiset(fetched)[e] else 0 {
        MaleFCount(fetched, e);
      }
      outcome := Pass;
    }

    /** `optimize`: `CREATE INDEX IF NOT EXISTS`; a second call changes nothing and no
        row changes. Fails when the table does not exist. */
    method Optimize() returns (outcome: Outcome)
      requires Valid()
      modifies this
      ensures Valid()
      ensures outcome == if old(tableExists) then Pass else Fail(StorageError)
      ensures indexed == (old(indexed) || old(tableExists))
      ensures rows == old(rows) && nextId == old(nextId) && tableExists == old(tableExists)
    {
      if !tableExists {
        return Fail(StorageError);
      }
      indexed := true;
      outcome := Pass;
    }
  }

  /** The loop of `list_employees`: each fetched row is turned back into an `Employee`
      (parsing its stored date) and listed with its age on `today`. */
  method WithAges(fetched: seq<Entry>, today: Date) returns (listing: seq<Listed>)
    requires forall e :: e in fetched ==> Parse(e.birthDate).Some?
    ensures EntriesOf(listing) == fetched
    ensures forall k :: 0 <= k < |listing| ==> AgeIsCurrent(listing[k], today)
  {
    listing := [];
    var i := 0;
    while i < |fetched|
      invariant 0 <= i <= |fetched| && |listing| == i
      invariant forall k :: 0 <= k < i ==> ListsEntry(listing[k], fetched[k]) && AgeIsCurrent(listing[k], today)
    {
      var entry := fetched[i];
      var employee := NewEmployee(entry.fullName, entry.birthDate, entry.gender);
      listing := listing + [Listed(entry.fullName, entry.birthDate, entry.gender, Age(employee.value, today))];
      i := i + 1;
    }
    assert EntriesOf(listing) == fetched;
  }

  /** The scan behind `find_male_f`'s SELECT: the rows that satisfy its WHERE clause, in
      table order. */
  method SelectMaleF(fetched: seq<Entry>) returns (found: seq<Entry>)
    ensures found == MaleF(fetched)
  {
    found := [];
    var i := 0;
    while i < |fetched|
      invariant 0 <= i <= |fetched|
      invariant found == MaleF(fetched[..i])
    {
      var entry := fetched[i];
      assert fetched[..i + 1] == fetched[..i] + [entry];
      MaleFAppend(fetched[..i], [entry]);
      assert [entry][1..] == [];
      if MatchesMaleF(entry) {
        found := found + [entry];
      }
      i := i + 1;
    }
    assert fetched[..i] == fetched;
  }

  /** Create the table, fill it, query it: at least the 100 marked rows come back. */
  method SeedAndQuery(unmarked: seq<Draw>, marked: seq<Draw>) returns (count: nat)
    requires AllUnmarkedDraws(unmarked) && AllMarkedDraws(marked)
    requires |unmarked| == UnmarkedCount && |marked| == MarkedCount
    ensures count >= MarkedCount
  {
    var manager := new EmployeeManager();
    manager.CreateTable();
    var filled := manager.FillEmployees(unmarked, marked);
    var queried, found := manager.FindMaleF();
    FilledTableMatches([], unmarked, marked, 1);
    assert manager.rows == [] + RowsFor(Population(unmarked, marked), 1);
    assert |found| == |multiset(found)|;
    count := |found|;
  }

  /** Building the index leaves the query's result unchanged. */
  method OptimizeKeepsQueryResults(manager: EmployeeManager) returns (before: seq<Entry>, after: seq<Entry>)
    requires manager.Valid()
    modifies manager
    ensures multiset(before) == multiset(after)
  {
    var o1, o2, o3;
    o1, before := manager.FindMaleF();
    o2 := manager.Optimize();
    o3, after := manager.FindMaleF();
  }

  /** Adding an employee born "2021-02-30" fails with `ParseError` and inserts nothing. */
  method RejectImpossibleDate(manager: EmployeeManager) returns (outcome: Outcome)
    requires manager.Valid()
    modifies manager
    ensures outcome == Fail(ParseError)
    ensures manager.rows == old(manager.rows)
  {
    Feb30Rejected();
    outcome := manager.AddEmployee("Jane Doe", "2021-02-30", "Female");
  }
}
