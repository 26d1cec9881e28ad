/** The employee record shown in each row of the table. */
module Employees {

  /** One employee. The numeric fields are integers in this model. */
  datatype Employee = Employee(id: int, name: string, salary: int, age: int)

  /** No two records of the list share an id. */
  predicate UniqueIds(s: seq<Employee>) {
    forall i, j :: 0 <= i < j < |s| ==> s[i].id != s[j].id
  }

  /** Some record of the list has the given id. */
  predicate HasId(s: seq<Employee>, id: int) {
    exists k :: 0 <= k < |s| && s[k].id == id
  }
}
