/** checkSalaryConstraints: a pre-order walk that, for every employee with
    at least one direct report, compares the salary with the band
    [1.2 * avg, 1.5 * avg] of the direct reports' average salary, and
    reports it when the salary is strictly outside. The source prints one
    line per report; here the reports are returned in print order. */
module SalaryAudit {
  import opened Records
  import opened Hierarchy

  /** One printed line: full name, salary, average of the direct reports,
      and the two bounds. */
  datatype Violation = Violation(name: string, salary: real, average: real, lower: real, upper: real)

  function SalarySum(staff: seq<Employee>, ks: seq<nat>): real
    requires forall i :: 0 <= i < |ks| ==> ks[i] < |staff|
  {
    if ks == [] then 0.0 else staff[ks[0]].salary + SalarySum(staff, ks[1..])
  }

  /** The mean salary of the slots in `ks`. */
  function Average(staff: seq<Employee>, ks: seq<nat>): real
    requires ks != [] && forall i :: 0 <= i < |ks| ==> ks[i] < |staff|
  {
    SalarySum(staff, ks) / (|ks| as real)
  }

  /** The band test: strictly below 1.2 times or strictly above 1.5 times
      the average. */
  predicate OutOfBand(salary: real, average: real) {
    salary < average * 1.2 || salary > average * 1.5
  }

  /** The employee in slot k has direct reports and a salary outside the
      band of their average. */
  predicate Flagged(staff: seq<Employee>, k: nat)
    requires Closed(staff) && k < |staff|
  {
    staff[k].subordinates != [] &&
    OutOfBand(staff[k].salary, Average(staff, staff[k].subordinates))
  }

  /** The line printed for slot k. */
  function ViolationOf(staff: seq<Employee>, k: nat): (v: Violation)
    requires Closed(staff) && k < |staff| && staff[k].subordinates != []
    ensures v.name == FullName(staff[k]) && v.salary == staff[k].salary
    ensures v.average == Average(staff, staff[k].subordinates)
    ensures v.lower == 1.2 * v.average && v.upper == 1.5 * v.average
  {
    var avg := Average(staff, staff[k].subordinates);
    Violation(FullName(staff[k]), staff[k].salary, avg, avg * 1.2, avg * 1.5)
  }

  /** The line printed for slot k, if it is flagged. */
  function Line(staff: seq<Employee>, k: nat): (vs: seq<Violation>)
    requires Closed(staff) && k < |staff|
    ensures vs == [] <==> !Flagged(staff, k)
    ensures vs != [] ==> vs == [ViolationOf(staff, k)]
  {
    if Flagged(staff, k) then [ViolationOf(staff, k)] else []
  }

  /** Every reported line is a true violation: its salary lies strictly
      outside the band it reports. */
  predicate AllOutOfBand(vs: seq<Violation>) {
    forall i :: 0 <= i < |vs| ==>
      vs[i].lower == vs[i].average * 1.2 && vs[i].upper == vs[i].average * 1.5 &&
      (vs[i].salary < vs[i].lower || vs[i].salary > vs[i].upper)
  }

  /** checkSalaryConstraints(staff[k]). */
  function Audit(staff: seq<Employee>, rank: map<nat, nat>, k: nat): (vs: seq<Violation>)
    requires Ranked(staff, rank) && k in rank
    ensures AllOutOfBand(vs)
    decreases rank[k], |staff[k].subordinates| + 1
  {
    var subs := staff[k].subordinates;
    if subs == [] then []
    else
      Line(staff, k) + AuditAll(staff, rank, rank[k], subs)
  }

  /** The loop over the subordinates: the audits of `ks` in order. */
  function AuditAll(staff: seq<Employee>, rank: map<nat, nat>, bound: nat, ks: seq<nat>): (vs: seq<Violation>)
    requires Ranked(staff, rank) && Below(rank, bound, ks)
    ensures AllOutOfBand(vs)
    decreases bound, |ks|
  {
    if ks == [] then []
    else Audit(staff, rank, ks[0]) + AuditAll(staff, rank, bound, ks[1..])
  }

  // ---------------------------------------------------------------------
  // The audit against the walk

  /** The lines for a list of visits: one per visited flagged slot, in
      visit order. */
  function Flags(staff: seq<Employee>, visits: seq<Visit>): seq<Violation>
    requires Closed(staff) && forall i :: 0 <= i < |visits| ==> visits[i].node < |staff|
  {
    if visits == [] then []
    else
      Line(staff, visits[0].node) + Flags(staff, visits[1..])
  }

  lemma {:induction false} FlagsAppend(staff: seq<Employee>, a: seq<Visit>, b: seq<Visit>)
    requires Closed(staff)
    requires forall i :: 0 <= i < |a| ==> a[i].node < |staff|
    requires forall i :: 0 <= i < |b| ==> b[i].node < |staff|
    ensures Flags(staff, a + b) == Flags(staff, a) + Flags(staff, b)
  {
    if a == [] {
      assert a + b == b;
    } else {
      assert (a + b)[0] == a[0];
      assert (a + b)[1..] == a[1..] + b;
      FlagsAppend(staff, a[1..], b);
      calc {
        Flags(staff, a + b);
        Line(staff, a[0].node) + Flags(staff, a[1..] + b);
        Line(staff, a[0].node) + (Flags(staff, a[1..]) + Flags(staff, b));
        (Line(staff, a[0].node) + Flags(staff, a[1..])) + Flags(staff, b);
        Flags(staff, a) + Flags(staff, b);
      }
    }
  }

  /** A line is in the report for a list of visits iff it is the line of a
      visited slot that has direct reports and is out of band. */
  lemma {:induction false} FlagsMembers(staff: seq<Employee>, visits: seq<Visit>, v: Violation)
    requires Closed(staff) && forall i :: 0 <= i < |visits| ==> visits[i].node < |staff|
    ensures v in Flags(staff, visits) <==>
      exists i :: 0 <= i < |visits| && Flagged(staff, visits[i].node) &&
        v == ViolationOf(staff, visits[i].node)
  {
    if visits != [] {
      FlagsMembers(staff, visits[1..], v);
      if v in Flags(staff, visits[1..]) {
        var i :| 0 <= i < |visits[1..]| && Flagged(staff, visits[1..][i].node) &&
          v == ViolationOf(staff, visits[1..][i].node);
        assert visits[i + 1] == visits[1..][i];
      }
      if exists i :: 0 <= i < |visits| && Flagged(staff, visits[i].node) &&
          v == ViolationOf(staff, visits[i].node) {
        var i :| 0 <= i < |visits| && Flagged(staff, visits[i].node) &&
          v == ViolationOf(staff, visits[i].node);
        if i > 0 {
          assert visits[1..][i - 1] == visits[i];
        }
      }
    }
  }

  /** The audit from k reports exactly the flagged slots of the pre-order
      walk from k, in walk order. Slots without direct reports are never
      reported; the walk below them is empty, so nothing is skipped. */
  lemma {:induction false} AuditFollowsPreOrder(staff: seq<Employee>, rank: map<nat, nat>, k: nat, d: nat)
    requires Ranked(staff, rank) && k in rank
    ensures Audit(staff, rank, k) == Flags(staff, PreOrder(staff, rank, k, d))
    decreases rank[k], |staff[k].subordinates| + 1
  {
    var subs := staff[k].subordinates;
    var rest := PreOrderAll(staff, rank, rank[k], subs, d + 1);
    FlagsAppend(staff, [Visit(k, d)], rest);
    assert Flags(staff, [Visit(k, d)]) == Line(staff, k);
    AuditAllFollowsPreOrder(staff, rank, rank[k], subs, d + 1);
  }

  lemma {:induction false} AuditAllFollowsPreOrder(staff: seq<Employee>, rank: map<nat, nat>, bound: nat, ks: seq<nat>, d: nat)
    requires Ranked(staff, rank) && Below(rank, bound, ks)
    ensures AuditAll(staff, rank, bound, ks) == Flags(staff, PreOrderAll(staff, rank, bound, ks, d))
    decreases bound, |ks|
  {
    if ks != [] {
      AuditFollowsPreOrder(staff, rank, ks[0], d);
      AuditAllFollowsPreOrder(staff, rank, bound, ks[1..], d);
      FlagsAppend(staff, PreOrder(staff, rank, ks[0], d), PreOrderAll(staff, rank, bound, ks[1..], d));
    }
  }

  /** With n direct reports whose salaries sum to `sum`, the band test
      needs no division: salary s is out of band iff 10*n*s < 12*sum or
      10*n*s > 15*sum. */
  lemma BandWithoutDivision(s: real, sum: real, n: nat)
    requires n > 0
    ensures OutOfBand(s, sum / (n as real)) <==>
      10.0 * (n as real) * s < 12.0 * sum || 10.0 * (n as real) * s > 15.0 * sum
  {
    var r := n as real;
    var avg := sum / r;
    assert avg * r == sum;
    assert s < avg * 1.2 <==> s * r < avg * 1.2 * r;
    assert s > avg * 1.5 <==> s * r > avg * 1.5 * r;
  }

  /** With a non-negative average, a salary exactly on either bound is not
      out of band. (With a negative average the lower bound exceeds the
      upper one and every salary is out of band, as in the source.) */
  lemma OnBoundNotFlagged(average: real)
    requires average >= 0.0
    ensures !OutOfBand(average * 1.2, average) && !OutOfBand(average * 1.5, average)
  {
  }

  /** A negative average flags even a salary on the lower bound. */
  lemma NegativeAverageFlagsBound()
    ensures OutOfBand(-12.0, -10.0) && -12.0 == -10.0 * 1.2
  {
  }
}
