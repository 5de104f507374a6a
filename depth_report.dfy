/** findDeepEmployees: a pre-order walk carrying the depth (the root at 0,
    each subordinate one deeper) that reports every employee without
    direct reports whose depth exceeds 4. The source prints one line per
    report; here the reports are returned in print order. */
module DepthReport {
  import opened Records
  import opened Hierarchy

  /** Leaves deeper than this are reported. */
  const Threshold: nat := 4

  /** One printed line: full name and depth. */
  datatype DeepEntry = DeepEntry(name: string, depth: nat)

  /** The walk reports this visit: a leaf deeper than the threshold. */
  predicate Reported(staff: seq<Employee>, v: Visit)
    requires v.node < |staff|
  {
    staff[v.node].subordinates == [] && v.depth > Threshold
  }

  /** findDeepEmployees(staff[k], d): every reported depth exceeds the
      threshold and is at least d. */
  function Deep(staff: seq<Employee>, rank: map<nat, nat>, k: nat, d: nat): (es: seq<DeepEntry>)
    requires Ranked(staff, rank) && k in rank
    ensures forall i :: 0 <= i < |es| ==> es[i].depth > Threshold && es[i].depth >= d
    decreases rank[k], |staff[k].subordinates| + 1
  {
    (if Reported(staff, Visit(k, d)) then [DeepEntry(FullName(staff[k]), d)] else [])
    + DeepAll(staff, rank, rank[k], staff[k].subordinates, d + 1)
  }

  /** The loop over the subordinates, all at depth d. */
  function DeepAll(staff: seq<Employee>, rank: map<nat, nat>, bound: nat, ks: seq<nat>, d: nat)
    : (es: seq<DeepEntry>)
    requires Ranked(staff, rank) && Below(rank, bound, ks)
    ensures forall i :: 0 <= i < |es| ==> es[i].depth > Threshold && es[i].depth >= d
    decreases bound, |ks|
  {
    if ks == [] then []
    else Deep(staff, rank, ks[0], d) + DeepAll(staff, rank, bound, ks[1..], d)
  }

  // ---------------------------------------------------------------------
  // The report against the walk

  /** The lines for a list of visits: one per reported visit, in visit
      order. */
  function Reports(staff: seq<Employee>, visits: seq<Visit>): seq<DeepEntry>
    requires forall i :: 0 <= i < |visits| ==> visits[i].node < |staff|
  {
    if visits == [] then []
    else
      (if Reported(staff, visits[0])
       then [DeepEntry(FullName(staff[visits[0].node]), visits[0].depth)] else [])
      + Reports(staff, visits[1..])
  }

  lemma {:induction false} ReportsAppend(staff: seq<Employee>, a: seq<Visit>, b: seq<Visit>)
    requires forall i :: 0 <= i < |a| ==> a[i].node < |staff|
    requires forall i :: 0 <= i < |b| ==> b[i].node < |staff|
    ensures Reports(staff, a + b) == Reports(staff, a) + Reports(staff, b)
  {
    if a != [] {
      assert (a + b)[1..] == a[1..] + b;
      ReportsAppend(staff, a[1..], b);
    } else {
      assert a + b == b;
    }
  }

  /** A line is in the report for a list of visits iff it names a visited
      leaf deeper than the threshold, with that visit's depth. */
  lemma {:induction false} ReportsMembers(staff: seq<Employee>, visits: seq<Visit>, e: DeepEntry)
    requires forall i :: 0 <= i < |visits| ==> visits[i].node < |staff|
    ensures e in Reports(staff, visits) <==>
      exists i :: 0 <= i < |visits| && staff[visits[i].node].subordinates == [] &&
        visits[i].depth > Threshold &&
        e == DeepEntry(FullName(staff[visits[i].node]), visits[i].depth)
  {
    if visits != [] {
      ReportsMembers(staff, visits[1..], e);
      if e in Reports(staff, visits[1..]) {
        var i :| 0 <= i < |visits[1..]| && staff[visits[1..][i].node].subordinates == [] &&
          visits[1..][i].depth > Threshold &&
          e == DeepEntry(FullName(staff[visits[1..][i].node]), visits[1..][i].depth);
        assert visits[i + 1] == visits[1..][i];
      }
      if exists i :: 0 <= i < |visits| && staff[visits[i].node].subordinates == [] &&
          visits[i].depth > Threshold &&
          e == DeepEntry(FullName(staff[visits[i].node]), visits[i].depth) {
        var i :| 0 <= i < |visits| && staff[visits[i].node].subordinates == [] &&
          visits[i].depth > Threshold &&
          e == DeepEntry(FullName(staff[visits[i].node]), visits[i].depth);
        if i > 0 {
          assert visits[1..][i - 1] == visits[i];
        }
      }
    }
  }

  /** The report from k at depth d lists exactly the reported visits of
      the pre-order walk from k at depth d, in walk order. */
  lemma {:induction false} DeepFollowsPreOrder(staff: seq<Employee>, rank: map<nat, nat>, k: nat, d: nat)
    requires Ranked(staff, rank) && k in rank
    ensures Deep(staff, rank, k, d) == Reports(staff, PreOrder(staff, rank, k, d))
    decreases rank[k], |staff[k].subordinates| + 1
  {
    var subs := staff[k].subordinates;
    var rest := PreOrderAll(staff, rank, rank[k], subs, d + 1);
    ReportsAppend(staff, [Visit(k, d)], rest);
    assert Reports(staff, [Visit(k, d)]) ==
      (if Reported(staff, Visit(k, d)) then [DeepEntry(FullName(staff[k]), d)] else []);
    DeepAllFollowsPreOrder(staff, rank, rank[k], subs, d + 1);
  }

  lemma {:induction false} DeepAllFollowsPreOrder(staff: seq<Employee>, rank: map<nat, nat>, bound: nat, ks: seq<nat>, d: nat)
    requires Ranked(staff, rank) && Below(rank, bound, ks)
    ensures DeepAll(staff, rank, bound, ks, d) == Reports(staff, PreOrderAll(staff, rank, bound, ks, d))
    decreases bound, |ks|
  {
    if ks != [] {
      DeepFollowsPreOrder(staff, rank, ks[0], d);
      DeepAllFollowsPreOrder(staff, rank, bound, ks[1..], d);
      ReportsAppend(staff, PreOrder(staff, rank, ks[0], d), PreOrderAll(staff, rank, bound, ks[1..], d));
    }
  }
}
