/** The `employees` table as values: its rows, the projection the two SELECT statements
    return, the `find_male_f` predicate and the `ORDER BY full_name` ordering. */
module Table {
  import opened Outcomes
  import opened Calendar
  import opened DateText
  import opened EmployeeRecord
  import opened NameOrder
  import opened Generation

  /** A stored row: `(id, full_name, birth_date, gender)`, the date as stored text. */
  datatype Row = Row(id: int, fullName: string, birthDate: string, gender: string)

  /** `SELECT full_name, birth_date, gender`: a row without its id. */
  datatype Entry = Entry(fullName: string, birthDate: string, gender: string)

  /** One line of `list_employees`: the selected columns and the derived age. */
  datatype Listed = Listed(fullName: string, birthDate: string, gender: string, age: int)

  /** A listed age is the one the re-parsed birth date gives on `today`. */
  predicate AgeIsCurrent(l: Listed, today: Date) {
    Parse(l.birthDate).Some? &&
    l.age == Age(Employee(l.fullName, Parse(l.birthDate).value, l.gender), today)
  }

  /** The INSERT of one constructed employee, with the date written by `strftime`. */
  function ToRow(e: Employee, id: int): Row
    requires IsValid(e.birthDate)
  {
    Row(id, e.fullName, Format(e.birthDate), e.gender)
  }

  /** The date text an INSERT stores parses back to the employee's date. */
  lemma StoredDateParses(e: Employee, id: int)
    requires IsValid(e.birthDate)
    ensures Parse(ToRow(e, id).birthDate) == Some(e.birthDate)
  {
    ParseFormat(e.birthDate);
  }

  /** The rows `executemany` adds for `es` when the next free id is `firstId`. */
  function RowsFor(es: seq<Employee>, firstId: int): (rs: seq<Row>)
    requires AllDatesValid(es)
    ensures |rs| == |es|
    ensures forall k :: 0 <= k < |rs| ==> rs[k].id == firstId + k
  {
    seq(|es|, k requires 0 <= k < |es| => ToRow(es[k], firstId + k))
  }

  /** Rows `firstId`, `firstId + 1`, ... built from `es`, in order, are those `RowsFor` gives. */
  lemma RowsForPointwise(added: seq<Row>, es: seq<Employee>, firstId: int)
    requires AllDatesValid(es) && |added| == |es|
    requires forall k :: 0 <= k < |es| ==> added[k] == ToRow(es[k], firstId + k)
    ensures added == RowsFor(es, firstId)
  {
  }

  function EntryOf(r: Row): Entry {
    Entry(r.fullName, r.birthDate, r.gender)
  }

  /** The selected columns of every row, in table order. */
  function Entries(rows: seq<Row>): (es: seq<Entry>)
    ensures |es| == |rows|
  {
    seq(|rows|, k requires 0 <= k < |rows| => EntryOf(rows[k]))
  }

  /** Every entry selected from rows whose dates parse has a date that parses. */
  lemma EntryDateParses(rows: seq<Row>, e: Entry)
    requires forall i :: 0 <= i < |rows| ==> Parse(rows[i].birthDate).Some?
    requires e in multiset(Entries(rows))
    ensures Parse(e.birthDate).Some?
  {
    var at :| 0 <= at < |rows| && Entries(rows)[at] == e;
  }

  /** The listed line shows the entry's columns. */
  predicate ListsEntry(l: Listed, e: Entry) {
    l.fullName == e.fullName && l.birthDate == e.birthDate && l.gender == e.gender
  }

  function EntriesOf(listing: seq<Listed>): (es: seq<Entry>)
    ensures |es| == |listing|
  {
    seq(|listing|, k requires 0 <= k < |listing| => Entry(listing[k].fullName, listing[k].birthDate, listing[k].gender))
  }

  /** `full_name LIKE 'F%'`: LIKE ignores ASCII case, so 'F' and 'f' both match. */
  predicate StartsWithF(name: string) {
    |name| > 0 && (name[0] == 'F' || name[0] == 'f')
  }

  /** `WHERE gender = 'Male' AND full_name LIKE 'F%'` (`=` is case-sensitive). */
  predicate MatchesMaleF(e: Entry) {
    e.gender == "Male" && StartsWithF(e.fullName)
  }

  /** The entries of `s` that satisfy the predicate, in order. */
  function MaleF(s: seq<Entry>): (r: seq<Entry>)
    ensures |r| <= |s|
    ensures forall e :: e in r ==> MatchesMaleF(e)
  {
    if s == [] then []
    else (if MatchesMaleF(s[0]) then [s[0]] else []) + MaleF(s[1..])
  }

  /** The filter keeps exactly the matching entries, each as often as it occurs. */
  lemma {:induction false} MaleFCount(s: seq<Entry>, e: Entry)
    ensures multiset(MaleF(s))[e] == if MatchesMaleF(e) then multiset(s)[e] else 0
  {
    if s != [] {
      MaleFCount(s[1..], e);
      assert s == [s[0]] + s[1..];
    }
  }

  lemma {:induction false} MaleFAppend(a: seq<Entry>, b: seq<Entry>)
    ensures MaleF(a + b) == MaleF(a) + MaleF(b)
  {
    if a == [] {
      assert a + b == b;
    } else {
      assert (a + b)[1..] == a[1..] + b;
      MaleFAppend(a[1..], b);
    }
  }

  /** If everything from position `j` on matches, at least that many entries are kept. */
  lemma {:induction false} MaleFSuffix(s: seq<Entry>, j: int)
    requires 0 <= j <= |s|
    requires forall k :: j <= k < |s| ==> MatchesMaleF(s[k])
    ensures |MaleF(s)| >= |s| - j
  {
    if s != [] {
      MaleFSuffix(s[1..], if j == 0 then 0 else j - 1);
    }
  }

  /** Position `k` past the prior rows holds the entry of the employee inserted there. */
  lemma AddedEntryAt(prior: seq<Row>, es: seq<Employee>, firstId: int, k: int)
    requires AllDatesValid(es) && |prior| <= k < |prior| + |es|
    ensures |Entries(prior + RowsFor(es, firstId))| == |prior| + |es|
    ensures Entries(prior + RowsFor(es, firstId))[k] == EntryOf(ToRow(es[k - |prior|], firstId + k - |prior|))
  {
    var added := RowsFor(es, firstId);
    assert (prior + added)[k] == added[k - |prior|];
  }

  /** The selected entry at position `k` of a table filled after `prior`: the entry of the
      record built from the matching draw. */
  lemma FilledEntryAt(prior: seq<Row>, unmarked: seq<Draw>, marked: seq<Draw>, firstId: int, k: int)
    requires AllUnmarkedDraws(unmarked) && AllMarkedDraws(marked)
    requires |prior| <= k < |prior| + |unmarked| + |marked|
    ensures AllDatesValid(Population(unmarked, marked))
    ensures |Entries(prior + RowsFor(Population(unmarked, marked), firstId))| == |prior| + |unmarked| + |marked|
    ensures k < |prior| + |unmarked| ==>
              Entries(prior + RowsFor(Population(unmarked, marked), firstId))[k].gender == unmarked[k - |prior|].gender &&
              Entries(prior + RowsFor(Population(unmarked, marked), firstId))[k].fullName == FullName(unmarked[k - |prior|])
    ensures k >= |prior| + |unmarked| ==>
              MatchesMaleF(Entries(prior + RowsFor(Population(unmarked, marked), firstId))[k])
  {
    var p := Population(unmarked, marked);
    PopulationDatesValid(unmarked, marked);
    PopulationAt(unmarked, marked, k - |prior|);
    AddedEntryAt(prior, p, firstId, k);
  }

  /** After a fill, whatever the table held before, the query finds at least the marked
      records. */
  lemma {:induction false} FilledTableMatches(prior: seq<Row>, unmarked: seq<Draw>, marked: seq<Draw>, firstId: int)
    requires AllUnmarkedDraws(unmarked) && AllMarkedDraws(marked)
    ensures AllDatesValid(Population(unmarked, marked))
    ensures |MaleF(Entries(prior + RowsFor(Population(unmarked, marked), firstId)))| >= |marked|
  {
    PopulationDatesValid(unmarked, marked);
    var s := Entries(prior + RowsFor(Population(unmarked, marked), firstId));
    var j := |prior| + |unmarked|;
    forall k | j <= k < |s| ensures MatchesMaleF(s[k]) {
      FilledEntryAt(prior, unmarked, marked, firstId, k);
    }
    MaleFSuffix(s, j);
  }

  /** The count is not exactly the number of marked records: on an empty table, an unmarked
      draw whose first token starts with 'F' and whose gender is "Male" is found too. */
  lemma {:induction false} UnmarkedRecordCanMatch(unmarked: seq<Draw>, marked: seq<Draw>, firstId: int)
    requires AllUnmarkedDraws(unmarked) && AllMarkedDraws(marked)
    requires |unmarked| > 0 && unmarked[0].first[0] == 'F' && unmarked[0].gender == "Male"
    ensures AllDatesValid(Population(unmarked, marked))
    ensures |MaleF(Entries(RowsFor(Population(unmarked, marked), firstId)))| >= |marked| + 1
  {
    PopulationDatesValid(unmarked, marked);
    var s := Entries([] + RowsFor(Population(unmarked, marked), firstId));
    assert [] + RowsFor(Population(unmarked, marked), firstId) == RowsFor(Population(unmarked, marked), firstId);
    FilledEntryAt([], unmarked, marked, firstId, 0);
    assert MatchesMaleF(s[0]);
    var j := |unmarked| - 1;
    forall k | j <= k < |s| - 1 ensures MatchesMaleF(s[1..][k]) {
      FilledEntryAt([], unmarked, marked, firstId, k + 1);
    }
    MaleFSuffix(s[1..], j);
  }

  /** Non-decreasing `full_name` order. */
  predicate SortedByName(s: seq<Entry>) {
    forall i, j :: 0 <= i < j < |s| ==> NameLe(s[i].fullName, s[j].fullName)
  }

  /** Inserts `x` before the first entry it sorts on or before. */
  function Insert(x: Entry, s: seq<Entry>): seq<Entry> {
    if s == [] then [x]
    else if NameLe(x.fullName, s[0].fullName) then [x] + s
    else [s[0]] + Insert(x, s[1..])
  }

  lemma {:induction false} InsertPermutes(x: Entry, s: seq<Entry>)
    ensures multiset(Insert(x, s)) == multiset(s) + multiset{x}
  {
    if s != [] && !NameLe(x.fullName, s[0].fullName) {
      InsertPermutes(x, s[1..]);
      assert s == [s[0]] + s[1..];
    }
  }

  /** Putting an entry in front of an ordered list keeps it ordered when the entry sorts on
      or before every element. */
  lemma ConsKeepsOrder(y: Entry, t: seq<Entry>)
    requires SortedByName(t)
    requires forall k :: 0 <= k < |t| ==> NameLe(y.fullName, t[k].fullName)
    ensures SortedByName([y] + t)
  {
    var r := [y] + t;
    forall i, j | 0 <= i < j < |r| ensures NameLe(r[i].fullName, r[j].fullName) {
      assert r[j] == t[j - 1];
      if i > 0 {
        assert r[i] == t[i - 1];
      }
    }
  }

  /** An entry that sorts on or before the head of an ordered list sorts on or before all of it. */
  lemma BelowHead(x: Entry, s: seq<Entry>)
    requires SortedByName(s) && s != [] && NameLe(x.fullName, s[0].fullName)
    ensures forall k :: 0 <= k < |s| ==> NameLe(x.fullName, s[k].fullName)
  {
    forall k | 0 < k < |s| ensures NameLe(x.fullName, s[k].fullName) {
      NameLeTransitive(x.fullName, s[0].fullName, s[k].fullName);
    }
  }

  lemma {:induction false} InsertKeepsOrder(x: Entry, s: seq<Entry>)
    requires SortedByName(s)
    ensures SortedByName(Insert(x, s))
  {
    if s == [] {
    } else if NameLe(x.fullName, s[0].fullName) {
      BelowHead(x, s);
      ConsKeepsOrder(x, s);
    } else {
      var t := Insert(x, s[1..]);
      InsertKeepsOrder(x, s[1..]);
      InsertPermutes(x, s[1..]);
      NameLeTotal(x.fullName, s[0].fullName);
      forall k | 0 <= k < |t| ensures NameLe(s[0].fullName, t[k].fullName) {
        assert t[k] in multiset(t);
        if t[k] != x {
          assert t[k] in multiset(s[1..]);
          var m :| 0 <= m < |s[1..]| && s[1..][m] == t[k];
          assert s[m + 1] == t[k];
        }
      }
      ConsKeepsOrder(s[0], t);
    }
  }

  /** The `ORDER BY full_name` result: sorted, and a permutation of its input. */
  function SortByName(s: seq<Entry>): (r: seq<Entry>)
    ensures SortedByName(r)
    ensures multiset(r) == multiset(s)
  {
    if s == [] then []
    else
      var rest := SortByName(s[1..]);
      InsertKeepsOrder(s[0], rest);
      InsertPermutes(s[0], rest);
      assert s == [s[0]] + s[1..];
      Insert(s[0], rest)
  }
}
