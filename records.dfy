/** The Employee record of BigCompanyAnalysis.java and the store of all
    Employee objects of one run.

    An Employee object is modelled as a value held in an arena: slot i of
    the arena is the object created for data row i, and a reference to an
    Employee is the index of its slot. The back-reference `manager` and the
    list `subordinates` therefore hold slot indices, and the source's
    pointer cycle (manager <-> subordinates) becomes index links. */
module Records {

  datatype Option<T> = None | Some(value: T) {
    /** This value when present, `other` otherwise. */
    function Or(other: Option<T>): Option<T> {
      if Some? then this else other
    }
  }

  /** A data row, already split at the commas: id, first name, last name,
      salary and, optionally, the manager id. */
  type Row = seq<string>

  /** An employee: the four or five fields of its row, the salary parsed,
      plus the two link fields that linking fills in. */
  datatype Employee = Employee(
    id: string,
    firstName: string,
    lastName: string,
    salary: real,
    managerId: Option<string>,
    manager: Option<nat>,
    subordinates: seq<nat>)

  /** The manager field of a row: present only when the row has more than
      four fields. */
  function ManagerField(row: Row): (r: Option<string>)
    ensures r.Some? <==> |row| > 4
    ensures r.Some? ==> r.value == row[4]
  {
    if |row| > 4 then Some(row[4]) else None
  }

  /** A row with no manager field, or an empty one, names the CEO. */
  predicate IsRoot(row: Row) {
    |row| <= 4 || row[4] == ""
  }

  /** Every row has the id, first name, last name and salary fields. */
  predicate WellShaped(rows: seq<Row>) {
    forall i :: 0 <= i < |rows| ==> |rows[i]| >= 4
  }

  /** The record the Employee constructor builds from a row; `parse` is the
      salary parser (Double.parseDouble in the source). */
  function NewEmployee(row: Row, parse: string -> real): (e: Employee)
    requires |row| >= 4
    ensures e.id == row[0] && e.firstName == row[1] && e.lastName == row[2]
    ensures e.salary == parse(row[3])
    ensures e.managerId.Some? <==> |row| > 4
    ensures e.managerId.Some? ==> e.managerId.value == row[4]
    ensures e.manager == None && e.subordinates == []
  {
    Employee(row[0], row[1], row[2], parse(row[3]), ManagerField(row), None, [])
  }

  /** First name, one space, last name. */
  function FullName(e: Employee): (name: string)
    ensures |name| == |e.firstName| + 1 + |e.lastName|
    ensures name[..|e.firstName|] == e.firstName
    ensures name[|e.firstName|] == ' '
    ensures name[|e.firstName| + 1..] == e.lastName
  {
    e.firstName + " " + e.lastName
  }

  /** The arena after `staff[m].addSubordinate(staff[e])`: e is appended
      to m's subordinates, e's manager becomes m, and no other record and
      no other field changes (m == e is allowed, as in the source). */
  function WithSubordinate(staff: seq<Employee>, m: nat, e: nat): (r: seq<Employee>)
    requires m < |staff| && e < |staff|
    ensures |r| == |staff|
    ensures forall k :: 0 <= k < |staff| ==>
      r[k] == staff[k].(
        subordinates := if k == m then staff[k].subordinates + [e] else staff[k].subordinates,
        manager := if k == e then Some(m) else staff[k].manager)
  {
    var grown := staff[m := staff[m].(subordinates := staff[m].subordinates + [e])];
    grown[e := grown[e].(manager := Some(m))]
  }

  /** The Employee objects of a run, addressed by slot. */
  class Arena {
    var staff: seq<Employee>

    constructor (initial: seq<Employee>)
      ensures staff == initial
    {
      staff := initial;
    }

    /** Employee.addSubordinate, called on slot m with slot e. */
    method AddSubordinate(m: nat, e: nat)
      requires m < |staff| && e < |staff|
      modifies this
      ensures staff == WithSubordinate(old(staff), m, e)
    {
      staff := staff[m := staff[m].(subordinates := staff[m].subordinates + [e])];
      staff := staff[e := staff[e].(manager := Some(m))];
    }
  }
}
