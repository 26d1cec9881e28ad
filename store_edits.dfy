/** What the add, edit and delete dialog-close callbacks do to the
    employee list once the dialog was confirmed, as functions of the list. */
module StoreEdits {
  import opened Employees
  import opened JsArray

  /** The `findIndex` callback: the record carries the id. */
  function IdIs(id: int): Employee -> bool {
    (x: Employee) => x.id == id
  }

  /** `findIndex(x => x.id === id)`. */
  function IndexOfId(s: seq<Employee>, id: int): (r: int)
    ensures -1 <= r < |s|
    ensures r == -1 <==> !HasId(s, id)
    ensures r >= 0 ==> s[r].id == id && forall k :: 0 <= k < r ==> s[k].id != id
  {
    var r := FindIndex(s, IdIs(id));
    assert r >= 0 ==> IdIs(id)(s[r]);
    assert r == -1 ==> forall k :: 0 <= k < |s| ==> !IdIs(id)(s[k]);
    r
  }

  /** Add: `push(record)`, with no check on the id. */
  function Added(s: seq<Employee>, e: Employee): seq<Employee> {
    s + [e]
  }

  /** Edit: `s[findIndex(...)] = record`. */
  function Edited(s: seq<Employee>, id: int, e: Employee): seq<Employee> {
    AssignAt(s, IndexOfId(s, id), e)
  }

  /** Delete: `s.splice(findIndex(...), 1)`. */
  function Deleted(s: seq<Employee>, id: int): seq<Employee> {
    Splice(s, IndexOfId(s, id), 1).rest
  }

  /** k is the first index holding a record with this id. */
  predicate FirstWithId(s: seq<Employee>, id: int, k: int) {
    0 <= k < |s| && s[k].id == id && forall j :: 0 <= j < k ==> s[j].id != id
  }

  /** Add puts the record after all existing ones and changes nothing else. */
  lemma AddAppends(s: seq<Employee>, e: Employee)
    ensures |Added(s, e)| == |s| + 1
    ensures Added(s, e)[..|s|] == s && Added(s, e)[|s|] == e
  {
  }

  /** Add does not look at the ids: adding a record whose id is taken
      leaves two records with that id. */
  lemma AddAllowsDuplicateIds(s: seq<Employee>, e: Employee)
    requires HasId(s, e.id)
    ensures !UniqueIds(Added(s, e))
  {
    var k :| 0 <= k < |s| && s[k].id == e.id;
    assert Added(s, e)[k].id == Added(s, e)[|s|].id;
  }

  /** Add keeps the ids distinct exactly when the new id is fresh. */
  lemma AddUniqueIds(s: seq<Employee>, e: Employee)
    requires UniqueIds(s)
    ensures UniqueIds(Added(s, e)) <==> !HasId(s, e.id)
  {
    if HasId(s, e.id) {
      AddAllowsDuplicateIds(s, e);
    } else {
      var t := Added(s, e);
      forall i, j | 0 <= i < j < |t| ensures t[i].id != t[j].id {
        if j == |s| { assert t[i] == s[i]; }
      }
    }
  }

  /** Edit of a present id overwrites the first record with it and nothing else. */
  lemma EditPresent(s: seq<Employee>, id: int, e: Employee, k: int)
    requires FirstWithId(s, id, k)
    ensures Edited(s, id, e) == s[k := e]
  {
    assert IndexOfId(s, id) == k;
  }

  /** Edit of an absent id leaves the list as it was. */
  lemma EditAbsent(s: seq<Employee>, id: int, e: Employee)
    requires !HasId(s, id)
    ensures Edited(s, id, e) == s
  {
  }

  /** Delete of a present id removes exactly the first record with it;
      the others keep their order. */
  lemma DeletePresent(s: seq<Employee>, id: int, k: int)
    requires FirstWithId(s, id, k)
    ensures Deleted(s, id) == s[..k] + s[k + 1..]
  {
    assert IndexOfId(s, id) == k;
    SpliceOneAt(s, k);
  }

  /** Delete of an absent id runs `splice(-1, 1)`: it removes the last
      record, if there is one. */
  lemma DeleteAbsent(s: seq<Employee>, id: int)
    requires !HasId(s, id)
    ensures s != [] ==> Deleted(s, id) == s[..|s| - 1]
    ensures s == [] ==> Deleted(s, id) == []
  {
    SpliceMinusOne(s);
  }

  /** Adding a record with a fresh id and then deleting that id gives back
      the list as it was. */
  lemma AddThenDelete(s: seq<Employee>, e: Employee)
    requires !HasId(s, e.id)
    ensures Deleted(Added(s, e), e.id) == s
  {
    var t := Added(s, e);
    assert FirstWithId(t, e.id, |s|);
    DeletePresent(t, e.id, |s|);
    assert t[..|s|] == s;
  }

  /** Adding a record whose id is taken and then deleting that id removes
      the older record and keeps the new one. */
  lemma AddDuplicateThenDelete(s: seq<Employee>, e: Employee, k: int)
    requires FirstWithId(s, e.id, k)
    ensures Deleted(Added(s, e), e.id) == s[..k] + s[k + 1..] + [e]
  {
    var t := Added(s, e);
    assert FirstWithId(t, e.id, k);
    DeletePresent(t, e.id, k);
    assert t[..k] == s[..k];
    assert t[k + 1..] == s[k + 1..] + [e];
  }

  /** When ids are unique, the deleted record is gone from the list. */
  lemma DeleteRemovesRecord(s: seq<Employee>, k: int)
    requires UniqueIds(s) && 0 <= k < |s|
    ensures s[k] !in Deleted(s, s[k].id)
  {
    var t := Deleted(s, s[k].id);
    assert FirstWithId(s, s[k].id, k);
    DeletePresent(s, s[k].id, k);
    forall j | 0 <= j < |t| ensures t[j] != s[k] {
      if j < k { assert t[j] == s[j]; } else { assert t[j] == s[j + 1]; }
    }
  }

  /** Delete keeps the ids distinct, whichever record it removes. */
  lemma DeleteKeepsUniqueIds(s: seq<Employee>, id: int)
    requires UniqueIds(s)
    ensures UniqueIds(Deleted(s, id))
  {
    var t := Deleted(s, id);
    var i := IndexOfId(s, id);
    if i >= 0 {
      DeletePresent(s, id, i);
      forall a, b | 0 <= a < b < |t| ensures t[a].id != t[b].id {
        var a' := if a < i then a else a + 1;
        var b' := if b < i then b else b + 1;
        assert t[a] == s[a'] && t[b] == s[b'];
      }
    } else {
      DeleteAbsent(s, id);
    }
  }

  /** Edit keeps the ids distinct when the new record keeps the edited id. */
  lemma EditKeepsUniqueIds(s: seq<Employee>, id: int, e: Employee)
    requires UniqueIds(s) && e.id == id
    ensures UniqueIds(Edited(s, id, e))
  {
    var i := IndexOfId(s, id);
    if i >= 0 {
      EditPresent(s, id, e, i);
    }
  }
}
