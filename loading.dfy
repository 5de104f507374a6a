/** The first loop of `main`: every data row is kept in `rows` and turned
    into a new Employee object, which `employees` maps from the row's id.
    A later row with an id seen before replaces the earlier map entry
    (HashMap.put); the earlier object stays in the arena, unreachable by id. */
module Loading {
  import opened Records

  function Front<T>(s: seq<T>): seq<T>
    requires s != []
  {
    s[..|s| - 1]
  }

  function Last<T>(s: seq<T>): T
    requires s != []
  {
    s[|s| - 1]
  }

  /** The id map after putting the rows one after the other: each id
      maps to the slot of the row that put it last. */
  function Index(rows: seq<Row>): (idx: map<string, nat>)
    requires WellShaped(rows)
    ensures forall id :: id in idx ==> idx[id] < |rows|
  {
    if rows == [] then map[]
    else Index(Front(rows))[Last(rows)[0] := |rows| - 1]
  }

  /** The Employee objects created by the loop, one slot per row: each
      is the record the constructor builds from its own row. */
  function Staff(rows: seq<Row>, parse: string -> real): (staff: seq<Employee>)
    requires WellShaped(rows)
    ensures |staff| == |rows|
    ensures forall i :: 0 <= i < |rows| ==> staff[i] == NewEmployee(rows[i], parse)
  {
    seq(|rows|, i requires 0 <= i < |rows| => NewEmployee(rows[i], parse))
  }

  /** An id is in the map iff some row carries it. */
  lemma {:induction false} IndexDomain(rows: seq<Row>)
    requires WellShaped(rows)
    ensures forall id :: id in Index(rows) <==> exists i :: 0 <= i < |rows| && rows[i][0] == id
  {
    if rows != [] {
      var front := Front(rows);
      IndexDomain(front);
      forall id | exists i :: 0 <= i < |rows| && rows[i][0] == id
        ensures id in Index(rows)
      {
        var i :| 0 <= i < |rows| && rows[i][0] == id;
        if i < |rows| - 1 {
          assert front[i][0] == id;
        }
      }
      forall id | id in Index(rows)
        ensures exists i :: 0 <= i < |rows| && rows[i][0] == id
      {
        if id != Last(rows)[0] {
          assert id in Index(front);
          var i :| 0 <= i < |front| && front[i][0] == id;
          assert rows[i][0] == id;
        }
      }
    }
  }

  /** Each id maps to the LAST row that carries it: a later row replaces
      an earlier entry. */
  lemma {:induction false} IndexLastRow(rows: seq<Row>)
    requires WellShaped(rows)
    ensures forall id :: id in Index(rows) ==>
      rows[Index(rows)[id]][0] == id &&
      forall j :: Index(rows)[id] < j < |rows| ==> rows[j][0] != id
  {
    if rows != [] {
      var front := Front(rows);
      IndexLastRow(front);
      forall id | id in Index(rows)
        ensures rows[Index(rows)[id]][0] == id
        ensures forall j :: Index(rows)[id] < j < |rows| ==> rows[j][0] != id
      {
        if id != Last(rows)[0] {
          assert id in Index(front) && Index(rows)[id] == Index(front)[id];
          assert rows[Index(front)[id]] == front[Index(front)[id]];
          forall j | Index(rows)[id] < j < |rows|
            ensures rows[j][0] != id
          {
            if j < |front| { assert rows[j] == front[j]; }
          }
        }
      }
    }
  }

  /** Ids that no two rows share each map to their own row. */
  lemma DistinctIndex(rows: seq<Row>, i: nat)
    requires WellShaped(rows) && i < |rows|
    requires forall j, k :: 0 <= j < k < |rows| ==> rows[j][0] != rows[k][0]
    ensures rows[i][0] in Index(rows) && Index(rows)[rows[i][0]] == i
  {
    IndexDomain(rows);
    IndexLastRow(rows);
  }

  /** The read loop of `main`, on rows already split at the commas. */
  method Load(lines: seq<Row>, parse: string -> real)
    returns (rows: seq<Row>, employees: map<string, nat>, staff: seq<Employee>)
    requires WellShaped(lines)
    ensures rows == lines
    ensures employees == Index(lines)
    ensures staff == Staff(lines, parse)
  {
    rows, employees, staff := [], map[], [];
    var i := 0;
    while i < |lines|
      invariant 0 <= i <= |lines|
      invariant rows == lines[..i]
      invariant employees == Index(lines[..i])
      invariant staff == Staff(lines[..i], parse)
    {
      var parts := lines[i];
      assert Front(lines[..i + 1]) == lines[..i];
      rows := rows + [parts];
      employees := employees[parts[0] := |staff|];
      staff := staff + [NewEmployee(parts, parse)];
      i := i + 1;
    }
    assert lines[..|lines|] == lines;
  }
}
