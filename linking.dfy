/** The second loop of `main`: rows are visited in file order; a row with
    no manager id, or an empty one, becomes the CEO, every other row's
    employee is appended to its manager's subordinates when the manager id
    resolves, and is silently skipped when it does not. */
module Linking {
  import opened Records
  import opened Loading
  import opened Hierarchy

  /** Every row has an id, and every id resolves (true of rows and map
      produced by `Load`). */
  predicate Keyed(rows: seq<Row>, idx: map<string, nat>) {
    forall i :: 0 <= i < |rows| ==> |rows[i]| >= 1 && rows[i][0] in idx
  }

  /** Every slot the map names exists. */
  predicate Fits(idx: map<string, nat>, n: nat) {
    forall id :: id in idx ==> idx[id] < n
  }

  /** The row names a manager, and that manager id is in the map. */
  predicate Resolves(row: Row, idx: map<string, nat>) {
    !IsRoot(row) && row[4] in idx
  }

  /** The row links slot e under some manager. */
  predicate LinksSlot(row: Row, idx: map<string, nat>, e: nat)
    requires |row| >= 1 && row[0] in idx
  {
    Resolves(row, idx) && idx[row[0]] == e
  }

  /** The row links some employee under slot k. */
  predicate LinksUnder(row: Row, idx: map<string, nat>, k: nat)
  {
    Resolves(row, idx) && idx[row[4]] == k
  }

  /** The effect of one row on the arena. */
  function LinkRow(staff: seq<Employee>, row: Row, idx: map<string, nat>): (r: seq<Employee>)
    requires |row| >= 1 && row[0] in idx && Fits(idx, |staff|)
    ensures |r| == |staff|
  {
    if Resolves(row, idx) then WithSubordinate(staff, idx[row[4]], idx[row[0]]) else staff
  }

  /** The arena after linking the rows in order. */
  function Linked(staff: seq<Employee>, rows: seq<Row>, idx: map<string, nat>): (r: seq<Employee>)
    requires Keyed(rows, idx) && Fits(idx, |staff|)
    ensures |r| == |staff|
  {
    if rows == [] then staff
    else LinkRow(Linked(staff, Front(rows), idx), Last(rows), idx)
  }

  /** The CEO slot after linking the rows in order. */
  function Ceo(rows: seq<Row>, idx: map<string, nat>): Option<nat>
    requires Keyed(rows, idx)
  {
    if rows == [] then None
    else if IsRoot(Last(rows)) then Some(idx[Last(rows)[0]])
    else Ceo(Front(rows), idx)
  }

  /** The slots the rows append under slot k, in row order. */
  function Children(rows: seq<Row>, idx: map<string, nat>, k: nat): seq<nat>
    requires Keyed(rows, idx)
  {
    if rows == [] then []
    else Children(Front(rows), idx, k)
         + (if LinksUnder(Last(rows), idx, k) then [idx[Last(rows)[0]]] else [])
  }

  /** The manager that the last row linking slot e gives it, if any. */
  function LastManager(rows: seq<Row>, idx: map<string, nat>, e: nat): Option<nat>
    requires Keyed(rows, idx)
  {
    if rows == [] then None
    else if LinksSlot(Last(rows), idx, e) then Some(idx[Last(rows)[4]])
    else LastManager(Front(rows), idx, e)
  }

  /** The linking loop of `main`, over the arena of Employee objects. */
  method Link(arena: Arena, rows: seq<Row>, employees: map<string, nat>)
    returns (ceo: Option<nat>)
    requires Keyed(rows, employees) && Fits(employees, |arena.staff|)
    modifies arena
    ensures arena.staff == Linked(old(arena.staff), rows, employees)
    ensures ceo == Ceo(rows, employees)
  {
    ceo := None;
    var i := 0;
    while i < |rows|
      invariant 0 <= i <= |rows|
      invariant Linked(old(arena.staff), rows[..i], employees) == arena.staff
      invariant ceo == Ceo(rows[..i], employees)
    {
      var row := rows[i];
      assert Front(rows[..i + 1]) == rows[..i];
      var id := row[0];
      var managerId := ManagerField(row);
      var emp := employees[id];
      if managerId == None || managerId.value == "" {
        ceo := Some(emp);
      } else if managerId.value in employees {
        var mgr := employees[managerId.value];
        arena.AddSubordinate(mgr, emp);
      }
      i := i + 1;
    }
    assert rows[..|rows|] == rows;
  }

  // ---------------------------------------------------------------------
  // What linking does to each record

  /** After linking, every record keeps its data; its subordinates are the
      earlier ones followed by the slots linked under it in row order, and
      its manager is the one the last row linking it names (unchanged if
      no row links it). */
  lemma {:induction false} LinkedEffect(staff: seq<Employee>, rows: seq<Row>, idx: map<string, nat>)
    requires Keyed(rows, idx) && Fits(idx, |staff|)
    ensures forall k :: 0 <= k < |staff| ==>
      Linked(staff, rows, idx)[k] == staff[k].(
        subordinates := staff[k].subordinates + Children(rows, idx, k),
        manager := LastManager(rows, idx, k).Or(staff[k].manager))
  {
    if rows != [] {
      LinkedEffect(staff, Front(rows), idx);
    }
  }

  lemma KeyedAppend(a: seq<Row>, b: seq<Row>, idx: map<string, nat>)
    requires Keyed(a, idx) && Keyed(b, idx)
    ensures Keyed(a + b, idx)
  {
    forall i | 0 <= i < |a + b|
      ensures |(a + b)[i]| >= 1 && (a + b)[i][0] in idx
    {
      if i < |a| { assert (a + b)[i] == a[i]; } else { assert (a + b)[i] == b[i - |a|]; }
    }
  }

  /** Subordinates appear in the order of their rows: the rows of a
      prefix contribute before the rows after it. */
  lemma {:induction false} ChildrenAppend(a: seq<Row>, b: seq<Row>, idx: map<string, nat>, k: nat)
    requires Keyed(a, idx) && Keyed(b, idx)
    ensures Keyed(a + b, idx)
    ensures Children(a + b, idx, k) == Children(a, idx, k) + Children(b, idx, k)
  {
    KeyedAppend(a, b, idx);
    if b == [] {
      assert a + b == a;
    } else {
      var ab := a + b;
      assert Front(ab) == a + Front(b);
      assert Last(ab) == Last(b);
      ChildrenAppend(a, Front(b), idx, k);
      var step := if LinksUnder(Last(b), idx, k) then [idx[Last(b)[0]]] else [];
      calc {
        Children(ab, idx, k);
        Children(a + Front(b), idx, k) + step;
        Children(a, idx, k) + Children(Front(b), idx, k) + step;
        Children(a, idx, k) + (Children(Front(b), idx, k) + step);
        Children(a, idx, k) + Children(b, idx, k);
      }
    }
  }

  /** A slot is linked under k iff some row with a resolving manager id
      names k as manager and that slot as the row's employee. */
  lemma {:induction false} ChildrenMembers(rows: seq<Row>, idx: map<string, nat>, k: nat, x: nat)
    requires Keyed(rows, idx)
    ensures x in Children(rows, idx, k) <==>
      exists i :: 0 <= i < |rows| && LinksUnder(rows[i], idx, k) && idx[rows[i][0]] == x
  {
    if rows != [] {
      var front := Front(rows);
      ChildrenMembers(front, idx, k, x);
      if x in Children(rows, idx, k) && x in Children(front, idx, k) {
        var i :| 0 <= i < |front| && LinksUnder(front[i], idx, k) && idx[front[i][0]] == x;
        assert rows[i] == front[i];
      }
      if exists i :: 0 <= i < |rows| && LinksUnder(rows[i], idx, k) && idx[rows[i][0]] == x {
        var i :| 0 <= i < |rows| && LinksUnder(rows[i], idx, k) && idx[rows[i][0]] == x;
        if i < |front| {
          assert front[i] == rows[i];
        }
      }
    }
  }

  /** A row that does not link anything (a CEO row, or one whose manager
      id does not resolve) leaves every subordinate list as it was: the
      rows without it give the same lists. */
  lemma RowWithoutLinkIsInert(before: seq<Row>, row: Row, after: seq<Row>, idx: map<string, nat>, k: nat)
    requires Keyed(before, idx) && Keyed(after, idx)
    requires |row| >= 1 && row[0] in idx && !Resolves(row, idx)
    ensures Keyed(before + [row] + after, idx) && Keyed(before + after, idx)
    ensures Children(before + [row] + after, idx, k) == Children(before + after, idx, k)
  {
    assert Keyed([row], idx);
    assert Front([row]) == [] && Last([row]) == row;
    assert Children([row], idx, k) == [];
    ChildrenAppend(before, [row], idx, k);
    ChildrenAppend(before + [row], after, idx, k);
    ChildrenAppend(before, after, idx, k);
  }

  /** The manager given to slot e comes from the last row that links e;
      there is none iff no row links e. */
  lemma {:induction false} LastManagerIsLastLink(rows: seq<Row>, idx: map<string, nat>, e: nat)
    requires Keyed(rows, idx)
    ensures LastManager(rows, idx, e).None? <==>
      forall i :: 0 <= i < |rows| ==> !LinksSlot(rows[i], idx, e)
    ensures LastManager(rows, idx, e).Some? ==>
      exists i :: 0 <= i < |rows| && LinksSlot(rows[i], idx, e) &&
        LastManager(rows, idx, e).value == idx[rows[i][4]] &&
        forall j :: i < j < |rows| ==> !LinksSlot(rows[j], idx, e)
  {
    if rows != [] {
      var front := Front(rows);
      LastManagerIsLastLink(front, idx, e);
      if !LinksSlot(Last(rows), idx, e) {
        if LastManager(rows, idx, e).Some? {
          var i :| 0 <= i < |front| && LinksSlot(front[i], idx, e) &&
            LastManager(front, idx, e).value == idx[front[i][4]] &&
            forall j :: i < j < |front| ==> !LinksSlot(front[j], idx, e);
          assert rows[i] == front[i];
          forall j | i < j < |rows|
            ensures !LinksSlot(rows[j], idx, e)
          {
            if j < |front| { assert rows[j] == front[j]; }
          }
        } else {
          forall i | 0 <= i < |rows|
            ensures !LinksSlot(rows[i], idx, e)
          {
            if i < |front| { assert rows[i] == front[i]; }
          }
        }
      }
    }
  }

  /** The CEO is set iff some row has no (or an empty) manager id, and it
      is the employee of the last such row: rows that name a manager never
      change it. */
  lemma {:induction false} CeoIsLastRoot(rows: seq<Row>, idx: map<string, nat>)
    requires Keyed(rows, idx)
    ensures Ceo(rows, idx).Some? <==> exists i :: 0 <= i < |rows| && IsRoot(rows[i])
    ensures forall i :: 0 <= i < |rows| && IsRoot(rows[i]) ==>
      (forall j :: i < j < |rows| ==> !IsRoot(rows[j])) ==> Ceo(rows, idx) == Some(idx[rows[i][0]])
    ensures Ceo(rows, idx).Some? ==>
      exists i :: 0 <= i < |rows| && IsRoot(rows[i]) && Ceo(rows, idx) == Some(idx[rows[i][0]]) &&
        forall j :: i < j < |rows| ==> !IsRoot(rows[j])
  {
    if rows != [] {
      var front := Front(rows);
      CeoIsLastRoot(front, idx);
      if IsRoot(Last(rows)) {
        var i := |rows| - 1;
        assert IsRoot(rows[i]) && Ceo(rows, idx) == Some(idx[rows[i][0]]);
      } else {
        if Ceo(rows, idx).Some? {
          var i :| 0 <= i < |front| && IsRoot(front[i]) && Ceo(front, idx) == Some(idx[front[i][0]]) &&
            forall j :: i < j < |front| ==> !IsRoot(front[j]);
          assert rows[i] == front[i];
          forall j | i < j < |rows|
            ensures !IsRoot(rows[j])
          {
            if j < |front| { assert rows[j] == front[j]; }
          }
        }
        if exists i :: 0 <= i < |rows| && IsRoot(rows[i]) {
          var i :| 0 <= i < |rows| && IsRoot(rows[i]);
          assert front[i] == rows[i];
        }
        forall i | 0 <= i < |rows| && IsRoot(rows[i]) && (forall j :: i < j < |rows| ==> !IsRoot(rows[j]))
          ensures Ceo(rows, idx) == Some(idx[rows[i][0]])
        {
          assert front[i] == rows[i];
          forall j | i < j < |front|
            ensures !IsRoot(front[j])
          {
            assert front[j] == rows[j];
          }
        }
      }
    }
  }

  /** Linking only ever adds existing slots to subordinate lists. */
  lemma {:induction false} LinkedStaysClosed(staff: seq<Employee>, rows: seq<Row>, idx: map<string, nat>)
    requires Keyed(rows, idx) && Fits(idx, |staff|) && Closed(staff)
    ensures Closed(Linked(staff, rows, idx))
  {
    if rows != [] {
      var before := Linked(staff, Front(rows), idx);
      LinkedStaysClosed(staff, Front(rows), idx);
      var row := Last(rows);
      if Resolves(row, idx) {
        var after := WithSubordinate(before, idx[row[4]], idx[row[0]]);
        forall k, j | 0 <= k < |after| && 0 <= j < |after[k].subordinates|
          ensures after[k].subordinates[j] < |after|
        {
          if j < |before[k].subordinates| {
            assert after[k].subordinates[j] == before[k].subordinates[j];
          }
        }
      }
    }
  }

  /** The rows and map that `Load` produces meet what linking needs. */
  lemma LoadedRowsAreKeyed(rows: seq<Row>)
    requires WellShaped(rows)
    ensures Keyed(rows, Index(rows)) && Fits(Index(rows), |rows|)
  {
    IndexDomain(rows);
    forall i | 0 <= i < |rows|
      ensures rows[i][0] in Index(rows)
    {
      assert exists j :: 0 <= j < |rows| && rows[j][0] == rows[i][0];
    }
  }
}
