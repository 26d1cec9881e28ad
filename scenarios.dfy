/** How the list edits show in the view, and worked examples of both on a
    three-record list. */
module Scenarios {
  import opened Employees
  import opened JsString
  import opened JsArray
  import opened ViewDerivation
  import opened StoreEdits

  function Ann(): Employee { Employee(1, "Ann", 5000, 30) }
  function Bo(): Employee { Employee(2, "Bo", 7000, 40) }
  function Cy(): Employee { Employee(3, "Cy", 3000, 25) }
  function Staff(): seq<Employee> { [Ann(), Bo(), Cy()] }

  /** Sorting by salary, ascending, shows Cy, Ann, Bo. */
  lemma SortBySalaryAscending()
    ensures Render(Staff(), ViewState("", BySalary, Asc, 0, 10)) == [Cy(), Ann(), Bo()]
  {
    FilterEmptyKeepsAll(Staff());
    SortStaffBySalary();
  }

  lemma InsertBelow(x: Employee, y: Employee)
    requires y.salary < x.salary
    ensures Insert(x, [y], BySalary, Asc) == [y, x]
  {
    assert [y][1..] == [];
  }

  lemma InsertBetween(x: Employee, y: Employee, z: Employee)
    requires y.salary < x.salary < z.salary
    ensures Insert(x, [y, z], BySalary, Asc) == [y, x, z]
  {
    assert [y, z][1..] == [z];
  }

  /** Three records whose salaries rise in the order c, a, b sort as c, a, b. */
  lemma SortThreeBySalary(a: Employee, b: Employee, c: Employee)
    requires c.salary < a.salary < b.salary
    ensures SortData([a, b, c], BySalary, Asc) == [c, a, b]
  {
    assert [a, b, c][1..] == [b, c] && [b, c][1..] == [c] && [c][1..] == [];
    assert SortBy([c], BySalary, Asc) == [c];
    InsertBelow(b, c);
    assert SortBy([b, c], BySalary, Asc) == [c, b];
    InsertBetween(a, c, b);
  }

  lemma SortStaffBySalary()
    ensures SortData(Staff(), BySalary, Asc) == [Cy(), Ann(), Bo()]
  {
    SortThreeBySalary(Ann(), Bo(), Cy());
  }

  /** A one-letter filter that is no character of the lower-cased search text does not match. */
  lemma LetterAbsent(e: Employee, c: char)
    requires !IsUpper(c)
    requires forall i :: 0 <= i < |SearchText(e)| ==> LowerChar(SearchText(e)[i]) != c
    ensures !Matches(e, [c])
  {
    var h := ToLower(SearchText(e));
    ToLowerChars(SearchText(e));
    forall k ensures !OccursAt(h, [c], k) {
      if 0 <= k < |h| { assert h[k..k + 1] == [h[k]]; }
    }
  }

  lemma AnnMatchesA()
    ensures Matches(Ann(), "a")
  {
    assert SearchText(Ann()) == NumberToString(1) + "A" + ("nn" + NumberToString(5000) + NumberToString(5000));
    PartMatches(Ann(), NumberToString(1), "A", "nn" + NumberToString(5000) + NumberToString(5000));
    assert ToLower("A") == "a";
    MatchesIgnoresFilterCase(Ann(), "A");
  }

  lemma BoMissesA()
    ensures !Matches(Bo(), "a")
  {
    assert NumberToString(2) == "2";
    assert NumberToString(7000) == "7000";
    assert SearchText(Bo()) == "2Bo70007000";
    LetterAbsent(Bo(), 'a');
  }

  lemma CyMissesA()
    ensures !Matches(Cy(), "a")
  {
    assert NumberToString(3) == "3";
    assert NumberToString(3000) == "3000";
    assert SearchText(Cy()) == "3Cy30003000";
    LetterAbsent(Cy(), 'a');
  }

  lemma FilterFirstOfThree(a: Employee, b: Employee, c: Employee, f: string)
    requires Matches(a, f) && !Matches(b, f) && !Matches(c, f)
    ensures FilterRecords([a, b, c], f) == [a]
  {
    assert [a, b, c] == [a] + [b] + [c];
    var p := MatchesFilter(f);
    FilterConcat([a] + [b], [c], p);
    FilterConcat([a], [b], p);
    FilterOne(a, p);
    FilterOne(b, p);
    FilterOne(c, p);
  }

  lemma FilterStaffA()
    ensures FilterRecords(Staff(), "a") == [Ann()]
  {
    AnnMatchesA();
    BoMissesA();
    CyMissesA();
    FilterFirstOfThree(Ann(), Bo(), Cy(), "a");
  }

  /** A filter that keeps a single record shows that record on the first page. */
  lemma RenderSingle(records: seq<Employee>, v: ViewState, e: Employee)
    requires FilterRecords(records, v.filter) == [e]
    requires v.pageIndex == 0 && v.pageSize >= 1
    ensures Render(records, v) == [e]
  {
    assert [e][1..] == [];
    assert SortBy([e], v.active, v.direction) == [e];
  }

  /** The filter "a" keeps Ann only: "1ann50005000" holds an "a", "2bo70007000" and "3cy30003000" do not. */
  lemma FilterA()
    ensures Render(Staff(), ViewState("a", BySalary, Asc, 0, 10)) == [Ann()]
  {
    FilterStaffA();
    RenderSingle(Staff(), ViewState("a", BySalary, Asc, 0, 10), Ann());
  }

  /** Two rows per page: the second page holds the third record alone. */
  lemma SecondPageOfTwo()
    ensures Render(Staff(), ViewState("", Unsorted, NoDirection, 1, 2)) == [Cy()]
  {
    FilterEmptyKeepsAll(Staff());
  }

  /** When ids are unique, deleting a record's id takes that record out of
      the table, whatever the filter, sort and page. */
  lemma DeletedRowHidden(s: seq<Employee>, k: int, v: ViewState)
    requires UniqueIds(s) && 0 <= k < |s|
    ensures s[k] !in Render(Deleted(s, s[k].id), v)
  {
    DeleteRemovesRecord(s, k);
    RenderedRowsFromList(Deleted(s, s[k].id), v);
  }

  /** Deleting id 2 removes Bo and keeps the others in order. */
  lemma DeleteTwo()
    ensures Deleted(Staff(), 2) == [Ann(), Cy()]
  {
    assert FirstWithId(Staff(), 2, 1);
    DeletePresent(Staff(), 2, 1);
    assert Staff()[..1] + Staff()[2..] == [Ann(), Cy()];
  }
}
