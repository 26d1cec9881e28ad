/** The table's data source and the paginator and sort header it listens to. */
module TableData {
  import opened Employees
  import opened JsArray
  import opened ViewDerivation
  import opened Service

  /** The state the paginator keeps: the current page and its size. */
  class MatPaginator {
    var pageIndex: nat
    var pageSize: nat

    constructor (pageSize: nat)
      ensures pageIndex == 0 && this.pageSize == pageSize
    {
      pageIndex := 0;
      this.pageSize := pageSize;
    }
  }

  /** The state the sort header keeps: the active column and the direction. */
  class MatSort {
    var active: SortColumn
    var direction: SortDirection

    constructor ()
      ensures active == Unsorted && direction == NoDirection
    {
      active := Unsorted;
      direction := NoDirection;
    }
  }

  /** `ExampleDataSource`: the filter text and the two derived lists it keeps
      for the table, recomputed from the service's list, the filter, the sort
      header and the paginator whenever one of them changes. */
  class ExampleDataSource {
    const database: EmployeeService
    const paginator: MatPaginator
    const sort: MatSort
    var filter: string
    var filteredData: seq<Employee>
    var renderedData: seq<Employee>

    /** The inputs of the view, gathered from the three objects. */
    function State(): ViewState
      reads this, paginator, sort
    {
      ViewState(filter, sort.active, sort.direction, paginator.pageIndex, paginator.pageSize)
    }

    /** The derived lists agree with the current list and inputs. */
    predicate Fresh()
      reads this, database, paginator, sort
    {
      && filteredData == FilterRecords(database.data, filter)
      && renderedData == Render(database.data, State())
    }

    /** The filter subject starts at `''`, and subscribing to it resets the
        paginator to the first page at once. */
    constructor (database: EmployeeService, paginator: MatPaginator, sort: MatSort)
      modifies paginator
      ensures this.database == database && this.paginator == paginator && this.sort == sort
      ensures filter == "" && filteredData == [] && renderedData == []
      ensures paginator.pageIndex == 0 && paginator.pageSize == old(paginator.pageSize)
    {
      this.database := database;
      this.paginator := paginator;
      this.sort := sort;
      filter := "";
      filteredData := [];
      renderedData := [];
      new;
      paginator.pageIndex := 0;
    }

    /** The body of `connect`'s map: filter, sort a copy, cut the page. */
    method Recompute()
      modifies this
      ensures filter == old(filter)
      ensures Fresh()
    {
      filteredData := FilterRecords(database.data, filter);
      var sortedData := SortData(filteredData, sort.active, sort.direction);
      var startIndex := PageStart(paginator.pageIndex, paginator.pageSize);
      renderedData := Splice(sortedData, startIndex, paginator.pageSize).removed;
    }

    /** The `filter` setter: the subject takes the new text, the page goes
        back to the first one, and the view is recomputed. */
    method SetFilter(f: string)
      modifies this, paginator
      ensures filter == f
      ensures paginator.pageIndex == 0 && paginator.pageSize == old(paginator.pageSize)
      ensures Fresh()
    {
      filter := f;
      paginator.pageIndex := 0;
      Recompute();
    }

    /** The service's `dataChange` emits a fetched list: the list is
        replaced and the view is recomputed under the same filter, sort
        and page. */
    method DataChange(list: seq<Employee>)
      modifies this, database
      ensures database.data == list && filter == old(filter)
      ensures Fresh()
    {
      database.Next(list);
      Recompute();
    }

    /** The sort header emits `sortChange`; the page index is kept. */
    method SortChange(active: SortColumn, direction: SortDirection)
      modifies this, sort
      ensures sort.active == active && sort.direction == direction && filter == old(filter)
      ensures Fresh()
    {
      sort.active, sort.direction := active, direction;
      Recompute();
    }

    /** The paginator emits `page` after the user moved to another page or
        chose another page size. */
    method PageChange(pageIndex: nat, pageSize: nat)
      modifies this, paginator
      ensures paginator.pageIndex == pageIndex && paginator.pageSize == pageSize
      ensures filter == old(filter)
      ensures Fresh()
    {
      paginator.pageIndex, paginator.pageSize := pageIndex, pageSize;
      Recompute();
    }
  }
}
