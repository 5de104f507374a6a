/** The linked arena seen as a tree, and the depth-first pre-order walk
    that both reports of BigCompanyAnalysis.java follow: a record first,
    then the subtrees of its subordinates in list order, each one level
    deeper.

    The source recurses over object references and would loop forever on
    a cycle it reaches. Here the walk takes a rank for a set of slots that
    holds the walk's start and the subordinates of each of its slots; the
    rank strictly drops from a record to each of its subordinates. Slots
    outside the set are never visited and may link as they like, cycles
    included. Such a rank exists when the links reachable from the start
    are acyclic (the height below each slot will do), and no rank can
    exist when they are not. */
module Hierarchy {
  import opened Records

  /** Every subordinate index names a slot. */
  predicate Closed(staff: seq<Employee>) {
    forall k, j :: 0 <= k < |staff| && 0 <= j < |staff[k].subordinates| ==>
      staff[k].subordinates[j] < |staff|
  }

  /** Every slot in `ks` is ranked below `bound`. */
  predicate Below(rank: map<nat, nat>, bound: nat, ks: seq<nat>) {
    forall i :: 0 <= i < |ks| ==> ks[i] in rank && rank[ks[i]] < bound
  }

  /** The ranked slots exist, and the subordinates of a ranked slot are
      ranked strictly below it. */
  predicate Ranked(staff: seq<Employee>, rank: map<nat, nat>) {
    && Closed(staff)
    && forall k :: k in rank ==> k < |staff| && Below(rank, rank[k], staff[k].subordinates)
  }

  /** One step of a walk: the slot visited and its depth below the root. */
  datatype Visit = Visit(node: nat, depth: nat)

  /** The walk from slot k at depth d: every visited slot exists and is at
      least as deep as d, and the walk starts at k itself. */
  function PreOrder(staff: seq<Employee>, rank: map<nat, nat>, k: nat, d: nat): (vs: seq<Visit>)
    requires Ranked(staff, rank) && k in rank
    ensures |vs| >= 1 && vs[0] == Visit(k, d)
    ensures forall i :: 0 <= i < |vs| ==> vs[i].node < |staff| && vs[i].depth >= d
    decreases rank[k], |staff[k].subordinates| + 1
  {
    [Visit(k, d)] + PreOrderAll(staff, rank, rank[k], staff[k].subordinates, d + 1)
  }

  /** The walks from the slots of `ks` in order, all at depth d. */
  function PreOrderAll(staff: seq<Employee>, rank: map<nat, nat>, bound: nat, ks: seq<nat>, d: nat)
    : (vs: seq<Visit>)
    requires Ranked(staff, rank) && Below(rank, bound, ks)
    ensures forall i :: 0 <= i < |vs| ==> vs[i].node < |staff| && vs[i].depth >= d
    decreases bound, |ks|
  {
    if ks == [] then []
    else PreOrder(staff, rank, ks[0], d) + PreOrderAll(staff, rank, bound, ks[1..], d)
  }

  /** Some earlier visit is to the manager of visit i, one level up. */
  ghost predicate ParentBefore(staff: seq<Employee>, vs: seq<Visit>, i: nat)
    requires i < |vs|
    requires forall j :: 0 <= j < |vs| ==> vs[j].node < |staff|
  {
    exists j :: 0 <= j < i && vs[i].node in staff[vs[j].node].subordinates &&
      vs[i].depth == vs[j].depth + 1
  }

  /** Every visit of `vs` is to a slot of `ks` at depth d, or comes after
      a visit to its manager, one level up. */
  ghost predicate ParentsOrListed(staff: seq<Employee>, vs: seq<Visit>, ks: seq<nat>, d: nat)
    requires forall j :: 0 <= j < |vs| ==> vs[j].node < |staff|
  {
    forall i :: 0 <= i < |vs| ==> (vs[i].node in ks && vs[i].depth == d) || ParentBefore(staff, vs, i)
  }

  /** In the walk from k (which starts at k, at depth d), every later
      visit comes after a visit to its manager and is exactly one level
      deeper: a parent is listed before its subtree. */
  lemma {:induction false} PreOrderParents(staff: seq<Employee>, rank: map<nat, nat>, k: nat, d: nat)
    requires Ranked(staff, rank) && k in rank
    ensures forall i :: 0 < i < |PreOrder(staff, rank, k, d)| ==>
      ParentBefore(staff, PreOrder(staff, rank, k, d), i)
    decreases rank[k], |staff[k].subordinates| + 1
  {
    var subs := staff[k].subordinates;
    PreOrderAllParents(staff, rank, rank[k], subs, d + 1);
    ParentsUnderRoot(staff, k, d, PreOrderAll(staff, rank, rank[k], subs, d + 1));
  }

  /** In the walks from `ks`, every visit is either to a slot of `ks` at
      depth d or comes after a visit to its manager, one level up. */
  lemma {:induction false} PreOrderAllParents(staff: seq<Employee>, rank: map<nat, nat>, bound: nat, ks: seq<nat>, d: nat)
    requires Ranked(staff, rank) && Below(rank, bound, ks)
    ensures ParentsOrListed(staff, PreOrderAll(staff, rank, bound, ks, d), ks, d)
    decreases bound, |ks|
  {
    if ks != [] {
      PreOrderParents(staff, rank, ks[0], d);
      PreOrderAllParents(staff, rank, bound, ks[1..], d);
      ParentsSideBySide(staff, ks, d, PreOrder(staff, rank, ks[0], d), PreOrderAll(staff, rank, bound, ks[1..], d));
    }
  }

  /** Putting a root visit in front of walks that hang below it. */
  lemma ParentsUnderRoot(staff: seq<Employee>, k: nat, d: nat, rest: seq<Visit>)
    requires k < |staff| && forall j :: 0 <= j < |rest| ==> rest[j].node < |staff|
    requires ParentsOrListed(staff, rest, staff[k].subordinates, d + 1)
    ensures forall i :: 0 < i < |[Visit(k, d)] + rest| ==> ParentBefore(staff, [Visit(k, d)] + rest, i)
  {
    var vs := [Visit(k, d)] + rest;
    forall i | 0 < i < |vs|
      ensures ParentBefore(staff, vs, i)
    {
      ParentUnderRootAt(staff, k, d, rest, i);
    }
  }

  lemma ParentUnderRootAt(staff: seq<Employee>, k: nat, d: nat, rest: seq<Visit>, i: nat)
    requires k < |staff| && forall j :: 0 <= j < |rest| ==> rest[j].node < |staff|
    requires ParentsOrListed(staff, rest, staff[k].subordinates, d + 1)
    requires 0 < i <= |rest|
    ensures ParentBefore(staff, [Visit(k, d)] + rest, i)
  {
    var vs := [Visit(k, d)] + rest;
    var v := rest[i - 1];
    assert vs[i] == v && vs[0] == Visit(k, d);
    if v.node in staff[k].subordinates && v.depth == d + 1 {
      assert 0 < i && vs[i].node in staff[vs[0].node].subordinates && vs[i].depth == vs[0].depth + 1;
    } else {
      assert ParentBefore(staff, rest, i - 1);
      var j :| 0 <= j < i - 1 && v.node in staff[rest[j].node].subordinates &&
        v.depth == rest[j].depth + 1;
      assert vs[j + 1] == rest[j];
    }
  }

  /** Putting the walk from ks[0] in front of the walks from the rest of
      `ks`. */
  lemma ParentsSideBySide(staff: seq<Employee>, ks: seq<nat>, d: nat, head: seq<Visit>, tail: seq<Visit>)
    requires ks != []
    requires forall j :: 0 <= j < |head| ==> head[j].node < |staff|
    requires forall j :: 0 <= j < |tail| ==> tail[j].node < |staff|
    requires |head| >= 1 && head[0] == Visit(ks[0], d)
    requires forall i :: 0 < i < |head| ==> ParentBefore(staff, head, i)
    requires ParentsOrListed(staff, tail, ks[1..], d)
    ensures ParentsOrListed(staff, head + tail, ks, d)
  {
    var vs := head + tail;
    forall i | 0 <= i < |vs|
      ensures (vs[i].node in ks && vs[i].depth == d) || ParentBefore(staff, vs, i)
    {
      if i < |head| {
        assert vs[i] == head[i];
        if i > 0 {
          assert ParentBefore(staff, head, i);
          var j :| 0 <= j < i && head[i].node in staff[head[j].node].subordinates &&
            head[i].depth == head[j].depth + 1;
          assert vs[j] == head[j];
        }
      } else {
        var t := i - |head|;
        assert vs[i] == tail[t];
        if !(tail[t].node in ks[1..] && tail[t].depth == d) {
          assert ParentBefore(staff, tail, t);
          var j :| 0 <= j < t && tail[t].node in staff[tail[j].node].subordinates &&
            tail[t].depth == tail[j].depth + 1;
          assert vs[j + |head|] == tail[j];
        }
      }
    }
  }
}
