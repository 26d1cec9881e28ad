/** The employee service: it holds the list the table is built from. */
module Service {
  import opened Employees

  /** `data` is the current value of the service's `dataChange` subject: the
      list the dialog callbacks change in place. */
  class EmployeeService {
    var data: seq<Employee>

    /** The subject starts out holding the empty list. */
    constructor ()
      ensures data == []
    {
      data := [];
    }

    /** `dataChange.next(list)`: a fetched list replaces the whole value. */
    method Next(list: seq<Employee>)
      modifies this
      ensures data == list
    {
      data := list;
    }
  }
}
