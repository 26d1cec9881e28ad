/** The view the table shows: the employee list filtered by the search text,
    sorted by the active column, and cut to the current page. Every change of
    an input recomputes all three steps from the list. */
module ViewDerivation {
  import opened Employees
  import opened JsString
  import opened JsArray

  // ---------------------------------------------------------------------
  // Filter
  // ---------------------------------------------------------------------

  /** The text a record is searched by: `id + name + salary + salary`.
      The salary appears twice and the age not at all. */
  function SearchText(e: Employee): string {
    NumberToString(e.id) + e.name + NumberToString(e.salary) + NumberToString(e.salary)
  }

  /** The filter callback: the lower-cased filter occurs in the lower-cased search text. */
  predicate Matches(e: Employee, filter: string) {
    IndexOf(ToLower(SearchText(e)), ToLower(filter)) != -1
  }

  /** The filter callback as a function value, for `filter`. */
  function MatchesFilter(filter: string): Employee -> bool {
    (e: Employee) => Matches(e, filter)
  }

  /** `data.slice().filter(...)`: the records that match, in list order. */
  function FilterRecords(s: seq<Employee>, filter: string): seq<Employee> {
    Filter(s, MatchesFilter(filter))
  }

  /** A record is in the result exactly when it is in the list and matches. */
  lemma FilterRecordsMembers(s: seq<Employee>, filter: string)
    ensures forall x :: x in FilterRecords(s, filter) <==> x in s && Matches(x, filter)
  {
    FilterMembers(s, MatchesFilter(filter));
  }

  /** The empty filter keeps every record: "" occurs in every text. */
  lemma FilterEmptyKeepsAll(s: seq<Employee>)
    ensures FilterRecords(s, "") == s
  {
    forall x | x in s ensures MatchesFilter("")(x) {
      IndexOfEmpty(ToLower(SearchText(x)));
    }
    FilterAll(s, MatchesFilter(""));
  }

  /** The age is never consulted. */
  lemma MatchesIgnoresAge(e: Employee, filter: string, age: int)
    ensures Matches(e.(age := age), filter) == Matches(e, filter)
  {
  }

  /** Case does not matter in the filter. */
  lemma MatchesIgnoresFilterCase(e: Employee, filter: string)
    ensures Matches(e, ToLower(filter)) == Matches(e, filter)
  {
    ToLowerIdempotent(filter);
  }

  /** A record matches every filter that occurs in one piece of its search text. */
  lemma {:induction false} PartMatches(e: Employee, a: string, b: string, c: string)
    requires SearchText(e) == a + b + c
    ensures Matches(e, b)
  {
    ToLowerConcat(a + b, c);
    ToLowerConcat(a, b);
    assert OccursAt(ToLower(b), ToLower(b), 0);
    OccursInConcat(ToLower(a), ToLower(b), ToLower(c), ToLower(b), 0);
  }

  /** A record is found by its id, by its name, and by its salary written
      twice in a row (the search text holds it twice). */
  lemma {:induction false} OwnFieldsMatch(e: Employee)
    ensures Matches(e, NumberToString(e.id))
    ensures Matches(e, e.name)
    ensures Matches(e, NumberToString(e.salary) + NumberToString(e.salary))
  {
    var i, n, s := NumberToString(e.id), e.name, NumberToString(e.salary);
    assert SearchText(e) == [] + i + (n + s + s);
    PartMatches(e, [], i, n + s + s);
    assert SearchText(e) == i + n + (s + s);
    PartMatches(e, i, n, s + s);
    assert SearchText(e) == i + n + (s + s) + [];
    PartMatches(e, i + n, s + s, []);
  }

  // ---------------------------------------------------------------------
  // Sort
  // ---------------------------------------------------------------------

  /** `_sort.active`: no column, one of the four record columns, or another column id. */
  datatype SortColumn = Unsorted | ById | ByName | BySalary | ByAge | ByOther

  /** `_sort.direction`: `'asc'`, `'desc'` or `''`. */
  datatype SortDirection = Asc | Desc | NoDirection

  /** A sort value after `isNaN(+v) ? v : +v`: a number, or text that is not one. */
  datatype Key = Num(n: int) | Text(s: string)

  /** The value compared for a column. For a column outside the switch both
      values stay `''`, which `+` turns into 0. */
  function SortKey(e: Employee, c: SortColumn): Key {
    match c
    case ById => Num(e.id)
    case ByName => (match ToNumber(e.name) case Some(v) => Num(v) case None => Text(e.name))
    case BySalary => Num(e.salary)
    case ByAge => Num(e.age)
    case _ => Num(0)
  }

  /** In this model a name holding an ASCII letter sorts as text, and a name
      that is an integer's text sorts as that integer. */
  lemma NameKey(e: Employee)
    ensures (exists i :: 0 <= i < |e.name| && IsAsciiLetter(e.name[i])) ==> SortKey(e, ByName) == Text(e.name)
    ensures forall n :: e.name == NumberToString(n) ==> SortKey(e, ByName) == Num(n)
  {
    if i :| 0 <= i < |e.name| && IsAsciiLetter(e.name[i]) {
      ToNumberOfLetters(e.name, i);
    }
    forall n | e.name == NumberToString(n) ensures SortKey(e, ByName) == Num(n) {
      ToNumberOfNumberToString(n);
    }
  }

  /** `valueA < valueB`: numbers numerically, texts lexicographically. A
      number and a text that is not one are unordered: the text becomes `NaN`
      and `<` is false both ways. */
  predicate KeyLess(a: Key, b: Key) {
    match (a, b)
    case (Num(x), Num(y)) => x < y
    case (Text(x), Text(y)) => TextLess(x, y)
    case (Num(_), Text(_)) => false
    case (Text(_), Num(_)) => false
  }

  /** Both keys are numbers or both are texts. */
  predicate SameKind(a: Key, b: Key) { a.Num? == b.Num? }

  /** The keys of all records for the column are of one kind, so `<` orders them. */
  predicate UniformKeys(s: seq<Employee>, c: SortColumn) {
    forall x, y :: x in s && y in s ==> SameKind(SortKey(x, c), SortKey(y, c))
  }

  /** x's key is of the same kind as the key of every record of s. */
  predicate KindAsAll(x: Employee, s: seq<Employee>, c: SortColumn) {
    forall y :: y in s ==> SameKind(SortKey(x, c), SortKey(y, c))
  }

  /** A number and a text are never below one another. */
  lemma MixedKeysUnordered(a: Key, b: Key)
    ensures !SameKind(a, b) ==> !KeyLess(a, b) && !KeyLess(b, a)
  {
  }

  /** In this model, names that each hold an ASCII letter all sort as texts. */
  lemma LetterNamesUniform(s: seq<Employee>)
    requires forall x :: x in s ==> exists i :: 0 <= i < |x.name| && IsAsciiLetter(x.name[i])
    ensures UniformKeys(s, ByName)
  {
    forall x | x in s ensures SortKey(x, ByName).Text? {
      NameKey(x);
    }
  }

  /** Every column but the name column yields numbers only. */
  lemma NumericColumnsUniform(s: seq<Employee>, c: SortColumn)
    requires c != ByName
    ensures UniformKeys(s, c)
  {
  }

  lemma KeyLessIrreflexive(a: Key)
    ensures !KeyLess(a, a)
  {
    if a.Text? { TextLessIrreflexive(a.s); }
  }

  lemma KeyLessTransitive(a: Key, b: Key, c: Key)
    ensures KeyLess(a, b) && KeyLess(b, c) ==> KeyLess(a, c)
  {
    if a.Text? && b.Text? && c.Text? && KeyLess(a, b) && KeyLess(b, c) {
      TextLessTransitive(a.s, b.s, c.s);
    }
  }

  /** Two different keys of one kind are ordered one way or the other. */
  lemma KeyLessTotal(a: Key, b: Key)
    ensures a != b && SameKind(a, b) ==> KeyLess(a, b) || KeyLess(b, a)
  {
    if a.Text? && b.Text? && a != b { TextLessTotal(a.s, b.s); }
  }

  /** "Not below" is transitive among keys of one kind: they form a total order. */
  lemma KeyNotLessTransitive(a: Key, b: Key, c: Key)
    requires SameKind(a, b) && SameKind(b, c)
    requires !KeyLess(b, a) && !KeyLess(c, b)
    ensures !KeyLess(c, a)
  {
    KeyLessTotal(a, b);
    KeyLessTransitive(c, a, b);
  }

  /** The comparator handed to `sort`: -1 when a's value is below b's,
      1 otherwise (never 0), negated unless the direction is `'asc'`. */
  function Compare(a: Employee, b: Employee, c: SortColumn, d: SortDirection): (r: int)
    ensures r == 1 || r == -1
  {
    var sign := if KeyLess(SortKey(a, c), SortKey(b, c)) then -1 else 1;
    if d == Asc then sign else -sign
  }

  /** a may stand before b: its value is not above b's when ascending, not below when descending. */
  predicate InOrder(a: Employee, b: Employee, c: SortColumn, d: SortDirection) {
    if d == Asc then !KeyLess(SortKey(b, c), SortKey(a, c))
    else !KeyLess(SortKey(a, c), SortKey(b, c))
  }

  predicate Sorted(s: seq<Employee>, c: SortColumn, d: SortDirection) {
    forall i, j :: 0 <= i < j < |s| ==> InOrder(s[i], s[j], c, d)
  }

  lemma InOrderTransitive(a: Employee, b: Employee, e: Employee, c: SortColumn, d: SortDirection)
    requires SameKind(SortKey(a, c), SortKey(b, c)) && SameKind(SortKey(b, c), SortKey(e, c))
    requires InOrder(a, b, c, d) && InOrder(b, e, c, d)
    ensures InOrder(a, e, c, d)
  {
    var ka, kb, ke := SortKey(a, c), SortKey(b, c), SortKey(e, c);
    if d == Asc { KeyNotLessTransitive(ka, kb, ke); } else { KeyNotLessTransitive(ke, kb, ka); }
  }

  /** What the comparator's sign says about the two records. */
  lemma CompareOrders(a: Employee, b: Employee, c: SortColumn, d: SortDirection)
    ensures Compare(a, b, c, d) < 0 ==> InOrder(a, b, c, d)
    ensures Compare(a, b, c, d) > 0 ==> InOrder(b, a, c, d)
  {
    var ka, kb := SortKey(a, c), SortKey(b, c);
    KeyLessTransitive(ka, kb, ka);
    KeyLessIrreflexive(ka);
  }

  /** Puts x into a list ordered by the comparator, after every element
      that the comparator places before x. */
  function Insert(x: Employee, s: seq<Employee>, c: SortColumn, d: SortDirection): (r: seq<Employee>)
    ensures multiset(r) == multiset(s) + multiset{x}
  {
    if s == [] then [x]
    else if Compare(s[0], x, c, d) < 0 then
      assert s == [s[0]] + s[1..];
      [s[0]] + Insert(x, s[1..], c, d)
    else [x] + s
  }

  /** The tail of an ordered list is ordered. */
  lemma SortedTail(s: seq<Employee>, c: SortColumn, d: SortDirection)
    requires s != [] && Sorted(s, c, d)
    ensures Sorted(s[1..], c, d)
  {
    var tail := s[1..];
    forall i, j | 0 <= i < j < |tail| ensures InOrder(tail[i], tail[j], c, d) {
      assert tail[i] == s[i + 1] && tail[j] == s[j + 1];
    }
  }

  /** Putting y in front of an ordered list whose every element may follow y gives an ordered list. */
  lemma SortedCons(y: Employee, t: seq<Employee>, c: SortColumn, d: SortDirection)
    requires Sorted(t, c, d)
    requires forall z :: z in t ==> InOrder(y, z, c, d)
    ensures Sorted([y] + t, c, d)
  {
    var r := [y] + t;
    forall i, j | 0 <= i < j < |r| ensures InOrder(r[i], r[j], c, d) {
      if i == 0 {
        assert r[j] == t[j - 1] && t[j - 1] in t;
      } else {
        assert r[i] == t[i - 1] && r[j] == t[j - 1];
      }
    }
  }

  /** Inserting into an ordered list keeps it ordered. */
  lemma {:induction false} InsertSorted(x: Employee, s: seq<Employee>, c: SortColumn, d: SortDirection)
    requires Sorted(s, c, d) && KindAsAll(x, s, c)
    ensures Sorted(Insert(x, s, c, d), c, d)
  {
    if s == [] { return; }
    CompareOrders(s[0], x, c, d);
    if Compare(s[0], x, c, d) < 0 {
      var tail := s[1..];
      var t := Insert(x, tail, c, d);
      SortedTail(s, c, d);
      assert forall y :: y in tail ==> y in s;
      InsertSorted(x, tail, c, d);
      forall y | y in t ensures InOrder(s[0], y, c, d) {
        assert y in multiset(t);
        if y != x {
          assert y in multiset(tail);
          var k :| 0 <= k < |tail| && tail[k] == y;
          assert s[k + 1] == y;
        }
      }
      SortedCons(s[0], t, c, d);
    } else {
      forall y | y in s ensures InOrder(x, y, c, d) {
        var k :| 0 <= k < |s| && s[k] == y;
        if k > 0 {
          assert s[0] in s;
          InOrderTransitive(x, s[0], s[k], c, d);
        }
      }
      SortedCons(x, s, c, d);
    }
  }

  /** A comparison sort driven by the comparator. */
  function SortBy(s: seq<Employee>, c: SortColumn, d: SortDirection): (r: seq<Employee>)
    ensures multiset(r) == multiset(s)
  {
    if s == [] then []
    else
      assert s == [s[0]] + s[1..];
      Insert(s[0], SortBy(s[1..], c, d), c, d)
  }

  /** When the keys are of one kind, the sort orders the records by them. */
  lemma {:induction false} SortBySorted(s: seq<Employee>, c: SortColumn, d: SortDirection)
    requires UniformKeys(s, c)
    ensures Sorted(SortBy(s, c, d), c, d)
  {
    if s != [] {
      var t := SortBy(s[1..], c, d);
      assert forall y :: y in s[1..] ==> y in s;
      SortBySorted(s[1..], c, d);
      forall y | y in t ensures SameKind(SortKey(s[0], c), SortKey(y, c)) {
        assert y in multiset(s[1..]);
        assert y in s[1..];
      }
      InsertSorted(s[0], t, c, d);
    }
  }

  /** `sortData`: the filtered records unchanged when no column is active or
      the direction is `''`, otherwise sorted by the active column. */
  function SortData(s: seq<Employee>, c: SortColumn, d: SortDirection): seq<Employee> {
    if c == Unsorted || d == NoDirection then s else SortBy(s, c, d)
  }

  /** Without an active column or a direction the order is the filter's. */
  lemma SortDataUnsorted(s: seq<Employee>, c: SortColumn, d: SortDirection)
    requires c == Unsorted || d == NoDirection
    ensures SortData(s, c, d) == s
  {
  }

  /** Sorting rearranges the records: the same records, as often each. */
  lemma SortDataPermutes(s: seq<Employee>, c: SortColumn, d: SortDirection)
    ensures multiset(SortData(s, c, d)) == multiset(s)
    ensures |SortData(s, c, d)| == |s|
  {
    assert |multiset(SortData(s, c, d))| == |multiset(s)|;
  }

  /** Sorting with a column and a direction leaves the keys non-decreasing
      for `'asc'` and non-increasing otherwise, provided they are of one kind. */
  lemma SortDataOrders(s: seq<Employee>, c: SortColumn, d: SortDirection)
    requires c != Unsorted && d != NoDirection && UniformKeys(s, c)
    ensures forall i, j :: 0 <= i < j < |SortData(s, c, d)| ==>
      var r := SortData(s, c, d);
      if d == Asc then !KeyLess(SortKey(r[j], c), SortKey(r[i], c))
      else !KeyLess(SortKey(r[i], c), SortKey(r[j], c))
  {
    SortBySorted(s, c, d);
  }

  /** Numeric columns sort by value, not by their text: 9 comes before 80. */
  lemma SalarySortIsNumeric(a: Employee, b: Employee)
    requires a.salary == 80 && b.salary == 9
    ensures SortData([a, b], BySalary, Asc) == [b, a]
  {
    assert TextLess(NumberToString(a.salary), NumberToString(b.salary));
  }

  // ---------------------------------------------------------------------
  // Paginate and the whole view
  // ---------------------------------------------------------------------

  /** `pageIndex * pageSize`: where the page starts in the sorted list,
      written as one page size per earlier page. */
  function PageStart(pageIndex: nat, pageSize: nat): nat {
    if pageIndex == 0 then 0 else PageStart(pageIndex - 1, pageSize) + pageSize
  }

  /** The start is the product of page index and page size. */
  lemma {:induction false} PageStartIsProduct(pageIndex: nat, pageSize: nat)
    ensures PageStart(pageIndex, pageSize) == pageIndex * pageSize
  {
    if pageIndex > 0 {
      PageStartIsProduct(pageIndex - 1, pageSize);
    }
  }

  /** `sortedData.splice(startIndex, pageSize)`: the page's records. */
  function Page(s: seq<Employee>, pageIndex: nat, pageSize: nat): seq<Employee> {
    Splice(s, PageStart(pageIndex, pageSize), pageSize).removed
  }

  /** The page is the window of the sorted list that starts at
      `pageIndex * pageSize`: at most pageSize long, cut short at the end,
      and empty when it starts past the end (no clamping of the index). */
  lemma PageWindow(s: seq<Employee>, pageIndex: nat, pageSize: nat)
    ensures var r, start := Page(s, pageIndex, pageSize), PageStart(pageIndex, pageSize);
            && |r| == Min(pageSize, Max(0, |s| - start))
            && (forall k :: 0 <= k < |r| ==> r[k] == s[start + k])
            && (start >= |s| ==> r == [])
  {
    SpliceWindow(s, PageStart(pageIndex, pageSize), pageSize);
  }

  /** The length of a page alone: `pageSize`, cut short at the end of the list. */
  lemma PageLength(s: seq<Employee>, pageIndex: nat, pageSize: nat)
    ensures |Page(s, pageIndex, pageSize)| == Min(pageSize, Max(0, |s| - PageStart(pageIndex, pageSize)))
  {
    SpliceWindow(s, PageStart(pageIndex, pageSize), pageSize);
  }

  /** The inputs of the view besides the list itself. */
  datatype ViewState = ViewState(
    filter: string,
    active: SortColumn,
    direction: SortDirection,
    pageIndex: nat,
    pageSize: nat)

  /** Filter, then sort, then cut one page: what the table renders. */
  function Render(records: seq<Employee>, v: ViewState): seq<Employee> {
    Page(SortData(FilterRecords(records, v.filter), v.active, v.direction), v.pageIndex, v.pageSize)
  }

  /** The number of rendered rows is `min(pageSize, max(0, filteredCount - pageIndex * pageSize))`. */
  lemma RenderLength(records: seq<Employee>, v: ViewState)
    ensures |Render(records, v)| ==
      Min(v.pageSize, Max(0, |FilterRecords(records, v.filter)| - PageStart(v.pageIndex, v.pageSize)))
  {
    var f := FilterRecords(records, v.filter);
    var s := SortData(f, v.active, v.direction);
    SortDataPermutes(f, v.active, v.direction);
    PageLength(s, v.pageIndex, v.pageSize);
    assert Render(records, v) == Page(s, v.pageIndex, v.pageSize);
  }

  /** A page holds only records of the list it is cut from. */
  lemma PageWithin(s: seq<Employee>, pageIndex: nat, pageSize: nat)
    ensures forall x :: x in Page(s, pageIndex, pageSize) ==> x in s
  {
    var r := Page(s, pageIndex, pageSize);
    PageWindow(s, pageIndex, pageSize);
    forall x | x in r ensures x in s {
      var k :| 0 <= k < |r| && r[k] == x;
      assert x == s[PageStart(pageIndex, pageSize) + k];
    }
  }

  /** Every rendered row is a record of the list that matches the filter. */
  lemma RenderedRowsMatch(records: seq<Employee>, v: ViewState)
    ensures forall x :: x in Render(records, v) ==> x in records && Matches(x, v.filter)
  {
    var f := FilterRecords(records, v.filter);
    var s := SortData(f, v.active, v.direction);
    SortDataPermutes(f, v.active, v.direction);
    PageWithin(s, v.pageIndex, v.pageSize);
    FilterRecordsMembers(records, v.filter);
    forall x | x in Render(records, v) ensures x in f {
      assert x in multiset(s);
    }
  }

  /** Every rendered row is a record of the list. */
  lemma RenderedRowsFromList(records: seq<Employee>, v: ViewState)
    ensures forall x :: x in Render(records, v) ==> x in records
  {
    RenderedRowsMatch(records, v);
  }

  /** A page of an ordered list is ordered. */
  lemma PageSorted(s: seq<Employee>, pageIndex: nat, pageSize: nat, c: SortColumn, d: SortDirection)
    requires Sorted(s, c, d)
    ensures Sorted(Page(s, pageIndex, pageSize), c, d)
  {
    SortedWindow(s, PageStart(pageIndex, pageSize), pageSize, c, d);
  }

  /** Any window of an ordered list is ordered. */
  lemma SortedWindow(s: seq<Employee>, start: nat, count: nat, c: SortColumn, d: SortDirection)
    requires Sorted(s, c, d)
    ensures Sorted(Splice(s, start, count).removed, c, d)
  {
    var r := Splice(s, start, count).removed;
    SpliceWindow(s, start, count);
    forall i, j | 0 <= i < j < |r| ensures InOrder(r[i], r[j], c, d) {
      assert r[i] == s[start + i] && r[j] == s[start + j];
    }
  }

  /** The rendered rows are in sorted order when a column and a direction are set. */
  lemma RenderedRowsSorted(records: seq<Employee>, v: ViewState)
    requires v.active != Unsorted && v.direction != NoDirection
    requires UniformKeys(records, v.active)
    ensures Sorted(Render(records, v), v.active, v.direction)
  {
    var f := FilterRecords(records, v.filter);
    FilterMembers(records, MatchesFilter(v.filter));
    assert UniformKeys(f, v.active);
    SortBySorted(f, v.active, v.direction);
    PageSorted(SortData(f, v.active, v.direction), v.pageIndex, v.pageSize, v.active, v.direction);
  }

  /** Never more rows than the page size. */
  lemma RenderFitsPage(records: seq<Employee>, v: ViewState)
    ensures |Render(records, v)| <= v.pageSize
  {
    RenderLength(records, v);
  }
}
