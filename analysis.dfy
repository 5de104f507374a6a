/** `main` of BigCompanyAnalysis.java: load the rows, link the hierarchy,
    then run the salary audit and the depth report from the CEO. Reading
    the file and printing are not modelled: the rows come in already split
    and the two reports come out as sequences of entries. */
module CompanyAnalysis {
  import opened Records
  import opened Loading
  import opened Linking
  import opened Hierarchy
  import opened SalaryAudit
  import opened DepthReport

  /** The arena once both loops of `main` have run: one record per row,
      and every subordinate index names one of them. */
  function Organisation(lines: seq<Row>, parse: string -> real): (org: seq<Employee>)
    requires WellShaped(lines)
    ensures |org| == |lines|
    ensures Closed(org)
  {
    LoadedRowsAreKeyed(lines);
    LinkedStaysClosed(Staff(lines, parse), lines, Index(lines));
    Linked(Staff(lines, parse), lines, Index(lines))
  }

  /** Some row has no manager id, or an empty one. */
  predicate HasRoot(lines: seq<Row>) {
    exists i :: 0 <= i < |lines| && IsRoot(lines[i])
  }

  /** The slot `ceo` holds once linking is done. */
  function Root(lines: seq<Row>): (c: nat)
    requires WellShaped(lines) && HasRoot(lines)
    ensures c < |lines|
    ensures
      exists i :: 0 <= i < |lines| && IsRoot(lines[i]) && lines[i][0] in Index(lines) &&
        c == Index(lines)[lines[i][0]] && forall j :: i < j < |lines| ==> !IsRoot(lines[j])
  {
    LoadedRowsAreKeyed(lines);
    CeoIsLastRoot(lines, Index(lines));
    Ceo(lines, Index(lines)).value
  }

  /** `main`: both loops, then the two reports from the CEO. The CEO must
      exist (the source dereferences it) and the links reachable from it
      must be acyclic (the source recurses through them), which `rank`
      witnesses on the CEO and every slot below it; links among slots the
      walks never reach are unconstrained. */
  method Analyze(lines: seq<Row>, parse: string -> real, rank: map<nat, nat>)
    returns (violations: seq<Violation>, deep: seq<DeepEntry>)
    requires WellShaped(lines) && HasRoot(lines)
    requires Ranked(Organisation(lines, parse), rank) && Root(lines) in rank
    ensures violations == Flags(Organisation(lines, parse), PreOrder(Organisation(lines, parse), rank, Root(lines), 0))
    ensures deep == Reports(Organisation(lines, parse), PreOrder(Organisation(lines, parse), rank, Root(lines), 0))
  {
    var rows, employees, staff := Load(lines, parse);
    LoadedRowsAreKeyed(lines);
    var arena := new Arena(staff);
    var ceo := Link(arena, rows, employees);
    CeoIsLastRoot(lines, employees);
    var org := arena.staff;
    violations := Audit(org, rank, ceo.value);
    deep := Deep(org, rank, ceo.value, 0);
    AuditFollowsPreOrder(org, rank, ceo.value, 0);
    DeepFollowsPreOrder(org, rank, ceo.value, 0);
  }

  /** After linking, the subordinates of slot k are exactly the employees
      of the rows whose manager id resolves to k. */
  lemma OrganisationSubordinates(lines: seq<Row>, parse: string -> real, k: nat, x: nat)
    requires WellShaped(lines) && k < |lines|
    ensures Keyed(lines, Index(lines))
    ensures x in Organisation(lines, parse)[k].subordinates <==>
      exists i :: 0 <= i < |lines| && LinksUnder(lines[i], Index(lines), k) && Index(lines)[lines[i][0]] == x
  {
    LoadedRowsAreKeyed(lines);
    LinkedEffect(Staff(lines, parse), lines, Index(lines));
    ChildrenMembers(lines, Index(lines), k, x);
  }

  /** Ids that no two rows share. */
  predicate DistinctIds(lines: seq<Row>)
    requires WellShaped(lines)
  {
    forall j, k :: 0 <= j < k < |lines| ==> lines[j][0] != lines[k][0]
  }

  /** With distinct ids, an employee gets a manager back-reference iff its
      manager id resolves, and the back-reference is then the record whose
      id is the employee's manager id. */
  lemma ManagerRoundTrip(lines: seq<Row>, parse: string -> real, e: nat)
    requires WellShaped(lines) && DistinctIds(lines) && e < |lines|
    ensures Keyed(lines, Index(lines))
    ensures Organisation(lines, parse)[e].manager.Some? <==> Resolves(lines[e], Index(lines))
    ensures var org := Organisation(lines, parse);
      org[e].manager.Some? ==>
        org[e].manager.value < |org| && org[e].managerId == Some(org[org[e].manager.value].id)
  {
    ManagerIffResolves(lines, parse, e);
    BackReferenceNamesManager(lines, parse, e);
  }

  /** With distinct ids, a back-reference, once set, is the record whose id
      is the employee's manager id. */
  lemma BackReferenceNamesManager(lines: seq<Row>, parse: string -> real, e: nat)
    requires WellShaped(lines) && DistinctIds(lines) && e < |lines|
    ensures var org := Organisation(lines, parse);
      org[e].manager.Some? ==>
        org[e].manager.value < |org| && org[e].managerId == Some(org[org[e].manager.value].id)
  {
    var idx := Index(lines);
    var staff := Staff(lines, parse);
    var org := Organisation(lines, parse);
    LoadedRowsAreKeyed(lines);
    LinkedEffect(staff, lines, idx);
    LastManagerIsLastLink(lines, idx, e);
    IndexLastRow(lines);
    if org[e].manager.Some? {
      assert org[e].manager == LastManager(lines, idx, e);
      var i :| 0 <= i < |lines| && LinksSlot(lines[i], idx, e) &&
        LastManager(lines, idx, e).value == idx[lines[i][4]] &&
        forall j :: i < j < |lines| ==> !LinksSlot(lines[j], idx, e);
      DistinctIndex(lines, i);
      DistinctIndex(lines, e);
      assert i == e;
      var m := idx[lines[e][4]];
      assert lines[m][0] == lines[e][4];
    }
  }

  /** With distinct ids, an employee gets a manager back-reference exactly
      when its own row's manager id resolves. */
  lemma ManagerIffResolves(lines: seq<Row>, parse: string -> real, e: nat)
    requires WellShaped(lines) && DistinctIds(lines) && e < |lines|
    ensures Keyed(lines, Index(lines))
    ensures Organisation(lines, parse)[e].manager.Some? <==> Resolves(lines[e], Index(lines))
  {
    var idx := Index(lines);
    var staff := Staff(lines, parse);
    LoadedRowsAreKeyed(lines);
    LinkedEffect(staff, lines, idx);
    LastManagerIsLastLink(lines, idx, e);
    DistinctIndex(lines, e);
    assert Organisation(lines, parse)[e].manager == LastManager(lines, idx, e).Or(staff[e].manager);
    assert staff[e].manager == None;
    assert LinksSlot(lines[e], idx, e) <==> Resolves(lines[e], idx);
    forall i | 0 <= i < |lines| && LinksSlot(lines[i], idx, e)
      ensures i == e
    {
      DistinctIndex(lines, i);
    }
  }
}
