/** The page component: it owns the service, the paginator, the sort header
    and the data source, and applies a confirmed dialog to the service's list
    before it refreshes the table. */
module App {
  import opened Employees
  import opened JsArray
  import opened StoreEdits
  import opened ViewDerivation
  import opened Service
  import opened TableData

  /** What a dialog reports when it closes on its confirm button. */
  const Confirmed: int := 1

  /** Multiplying by a positive size and dividing by it again gives the index back. */
  lemma MulDivCancels(i: nat, s: nat)
    requires s > 0
    ensures (i * s) / s == i
  {
    var a := i * s;
    var q, r := a / s, a % s;
    assert a == q * s + r;
    assert (i - q) * s == r;
    // A quotient off by one or more would put the remainder outside [0, s).
    if i - q >= 1 {
      assert false;
    } else if i - q <= -1 {
      assert false;
    }
  }

  class AppComponent {
    var database: EmployeeService
    var paginator: MatPaginator
    var sort: MatSort
    var dataSource: ExampleDataSource
    /** The row index and id remembered when an edit or delete dialog opens. */
    var index: int
    var id: int

    /** The data source reads this component's service, paginator and sort header. */
    predicate Valid()
      reads this, dataSource
    {
      && dataSource.database == database
      && dataSource.paginator == paginator
      && dataSource.sort == sort
    }

    /** `ngOnInit` and `loadData`: a fresh service and data source on the
        paginator and sort header. The service's list starts empty, and so
        does what the table shows, so the view is already up to date. */
    constructor (pageSize: nat)
      ensures Valid() && dataSource.Fresh()
      ensures fresh(database) && fresh(paginator) && fresh(sort) && fresh(dataSource)
      ensures database.data == [] && dataSource.filter == ""
      ensures dataSource.filteredData == [] && dataSource.renderedData == []
      ensures paginator.pageIndex == 0 && paginator.pageSize == pageSize
      ensures sort.active == Unsorted && sort.direction == NoDirection
    {
      var p := new MatPaginator(pageSize);
      var s := new MatSort();
      var db := new EmployeeService();
      var ds := new ExampleDataSource(db, p, s);
      database, paginator, sort, dataSource := db, p, s, ds;
      index, id := 0, 0;
    }

    /** A keyup in the filter box hands the box's text to the data source. */
    method FilterKeyUp(value: string)
      requires Valid()
      modifies dataSource, paginator
      ensures Valid()
      ensures dataSource.filter == value && paginator.pageIndex == 0
      ensures paginator.pageSize == old(paginator.pageSize)
      ensures database.data == old(database.data)
      ensures dataSource.Fresh()
    {
      dataSource.SetFilter(value);
    }

    /** The page index `_changePageSize` keeps when the size stays the same:
        `Math.floor(pageIndex * size / size) || 0`, which is the index itself,
        except for a size of 0, where `0 / 0` is `NaN` and the index becomes 0. */
    static function SamePageSizeIndex(pageIndex: nat, pageSize: nat): (r: nat)
      ensures r == if pageSize == 0 then 0 else (pageIndex * pageSize) / pageSize
      ensures pageSize == 0 ==> r == 0
      ensures pageSize > 0 ==> r == pageIndex
    {
      if pageSize == 0 then 0 else MulDivCancels(pageIndex, pageSize); pageIndex
    }

    /** `refreshTable`: the paginator re-emits its page at the same size,
        which makes the data source recompute. */
    method RefreshTable()
      requires Valid()
      modifies dataSource, paginator
      ensures Valid() && dataSource.filter == old(dataSource.filter)
      ensures paginator.pageSize == old(paginator.pageSize)
      ensures paginator.pageIndex == SamePageSizeIndex(old(paginator.pageIndex), old(paginator.pageSize))
      ensures sort.active == old(sort.active) && sort.direction == old(sort.direction)
      ensures database.data == old(database.data)
      ensures dataSource.Fresh()
    {
      var pageIndex := SamePageSizeIndex(paginator.pageIndex, paginator.pageSize);
      dataSource.PageChange(pageIndex, paginator.pageSize);
    }

    /** The add dialog closed: when confirmed, the record the service holds
        for the dialog is pushed onto the list, with no check on its id.
        Any other result changes nothing. */
    method AddNewClosed(result: int, dialogData: Employee)
      requires Valid()
      modifies database, dataSource, paginator
      ensures Valid()
      ensures database.data == if result == Confirmed then Added(old(database.data), dialogData) else old(database.data)
      ensures result == Confirmed ==> dataSource.Fresh() && dataSource.filter == old(dataSource.filter)
      ensures result == Confirmed ==> paginator.pageSize == old(paginator.pageSize)
      ensures result == Confirmed ==> paginator.pageIndex == SamePageSizeIndex(old(paginator.pageIndex), old(paginator.pageSize))
      ensures result != Confirmed ==> unchanged(dataSource) && unchanged(paginator)
    {
      if result == Confirmed {
        database.data := database.data + [dialogData];
        RefreshTable();
      }
    }

    /** `startEdit`: the row index and id are remembered while the edit dialog is open. */
    method StartEdit(i: int, id: int)
      modifies this
      ensures index == i && this.id == id
      ensures database == old(database) && paginator == old(paginator)
      ensures sort == old(sort) && dataSource == old(dataSource)
    {
      index := i;
      this.id := id;
    }

    /** The edit dialog closed: when confirmed, the first record with the
        remembered id is overwritten by the dialog's record; when no record
        has that id the list is left as it was. */
    method EditClosed(result: int, dialogData: Employee)
      requires Valid()
      modifies database, dataSource, paginator
      ensures Valid()
      ensures database.data == if result == Confirmed then Edited(old(database.data), id, dialogData) else old(database.data)
      ensures result == Confirmed ==> dataSource.Fresh() && dataSource.filter == old(dataSource.filter)
      ensures result == Confirmed ==> paginator.pageSize == old(paginator.pageSize)
      ensures result == Confirmed ==> paginator.pageIndex == SamePageSizeIndex(old(paginator.pageIndex), old(paginator.pageSize))
      ensures result != Confirmed ==> unchanged(dataSource) && unchanged(paginator)
    {
      if result == Confirmed {
        var foundIndex := IndexOfId(database.data, id);
        if foundIndex >= 0 {
          database.data := database.data[foundIndex := dialogData];
        }
        RefreshTable();
      }
    }

    /** `deleteItem`: the row index and id are remembered while the delete dialog is open. */
    method DeleteItem(i: int, id: int)
      modifies this
      ensures index == i && this.id == id
      ensures database == old(database) && paginator == old(paginator)
      ensures sort == old(sort) && dataSource == old(dataSource)
    {
      index := i;
      this.id := id;
    }

    /** The delete dialog closed: when confirmed, the list is spliced at the
        index of the first record with the remembered id. When no record has
        that id the index is -1, and the splice removes the last record. */
    method DeleteClosed(result: int)
      requires Valid()
      modifies database, dataSource, paginator
      ensures Valid()
      ensures database.data == if result == Confirmed then Deleted(old(database.data), id) else old(database.data)
      ensures result == Confirmed ==> dataSource.Fresh() && dataSource.filter == old(dataSource.filter)
      ensures result == Confirmed ==> paginator.pageSize == old(paginator.pageSize)
      ensures result == Confirmed ==> paginator.pageIndex == SamePageSizeIndex(old(paginator.pageIndex), old(paginator.pageSize))
      ensures result != Confirmed ==> unchanged(dataSource) && unchanged(paginator)
    {
      if result == Confirmed {
        var foundIndex := IndexOfId(database.data, id);
        database.data := Splice(database.data, foundIndex, 1).rest;
        RefreshTable();
      }
    }
  }
}
