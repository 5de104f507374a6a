/** Worked inputs: a three-level company in which nothing is reported,
    the depth boundary of the depth report, and a company whose manager
    cycle lies outside the CEO's walks. */
module Scenarios {
  import opened Records
  import opened Loading
  import opened Linking
  import opened Hierarchy
  import opened SalaryAudit
  import opened DepthReport
  import opened CompanyAnalysis

  /** Ana (no manager) manages Bob, who manages Cid. */
  function ThreeLevels(): seq<Row> {
    [["1", "Ana", "Boss", "100000"],
     ["2", "Bob", "Mid", "70000", "1"],
     ["3", "Cid", "Low", "50000", "2"]]
  }

  lemma ThreeLevelsIndex()
    ensures WellShaped(ThreeLevels())
    ensures Index(ThreeLevels()) == map["1" := 0, "2" := 1, "3" := 2]
  {
    var lines := ThreeLevels();
    assert Front(lines) == lines[..2] && Front(lines[..2]) == lines[..1] && Front(lines[..1]) == [];
    assert Index(lines[..1]) == map["1" := 0];
    assert Index(lines[..2]) == map["1" := 0, "2" := 1];
  }

  /** The arena after both loops: Ana over Bob over Cid, with the
      back-references set. */
  lemma ThreeLevelsLinked(parse: string -> real)
    requires parse("100000") == 100000.0 && parse("70000") == 70000.0 && parse("50000") == 50000.0
    ensures WellShaped(ThreeLevels())
    ensures Organisation(ThreeLevels(), parse) == ThreeLevelsArena()
  {
    var lines := ThreeLevels();
    ThreeLevelsIndex();
    var idx := Index(lines);
    var staff := Staff(lines, parse);
    assert staff ==
      [Employee("1", "Ana", "Boss", 100000.0, None, None, []),
       Employee("2", "Bob", "Mid", 70000.0, Some("1"), None, []),
       Employee("3", "Cid", "Low", 50000.0, Some("2"), None, [])];
    assert Front(lines) == lines[..2] && Front(lines[..2]) == lines[..1] && Front(lines[..1]) == [];
    LoadedRowsAreKeyed(lines);
    assert Linked(staff, [], idx) == staff;
    assert Last(lines[..1]) == lines[0] && !Resolves(lines[0], idx);
    var s1 := Linked(staff, lines[..1], idx);
    assert s1 == LinkRow(staff, lines[0], idx) == staff;
    assert Last(lines[..2]) == lines[1] && Resolves(lines[1], idx);
    var s2 := Linked(staff, lines[..2], idx);
    assert s2 == LinkRow(s1, lines[1], idx) == WithSubordinate(s1, 0, 1);
    assert s2[0] == Employee("1", "Ana", "Boss", 100000.0, None, None, [1]);
    assert s2[1] == Employee("2", "Bob", "Mid", 70000.0, Some("1"), Some(0), []);
    assert s2[2] == Employee("3", "Cid", "Low", 50000.0, Some("2"), None, []);
    assert s2 ==
      [Employee("1", "Ana", "Boss", 100000.0, None, None, [1]),
       Employee("2", "Bob", "Mid", 70000.0, Some("1"), Some(0), []),
       Employee("3", "Cid", "Low", 50000.0, Some("2"), None, [])];
    assert Last(lines) == lines[2] && Resolves(lines[2], idx);
    assert Linked(staff, lines, idx) == LinkRow(s2, lines[2], idx) == WithSubordinate(s2, 1, 2);
    var s3 := WithSubordinate(s2, 1, 2);
    assert s3[0] == Employee("1", "Ana", "Boss", 100000.0, None, None, [1]);
    assert s3[1] == Employee("2", "Bob", "Mid", 70000.0, Some("1"), Some(0), [2]);
    assert s3[2] == Employee("3", "Cid", "Low", 50000.0, Some("2"), Some(1), []);
    assert Organisation(lines, parse) == Linked(staff, lines, idx);
  }

  /** The CEO is Ana, the only row without a manager id. */
  lemma ThreeLevelsRoot()
    ensures WellShaped(ThreeLevels()) && IsRoot(ThreeLevels()[0]) && HasRoot(ThreeLevels())
    ensures Root(ThreeLevels()) == 0
  {
    var lines := ThreeLevels();
    ThreeLevelsIndex();
    var idx := Index(lines);
    assert Front(lines) == lines[..2] && Front(lines[..2]) == lines[..1] && Front(lines[..1]) == [];
    LoadedRowsAreKeyed(lines);
    assert Ceo(lines[..1], idx) == Some(0);
    assert Ceo(lines[..2], idx) == Some(0);
  }

  function ThreeLevelsArena(): seq<Employee> {
    [Employee("1", "Ana", "Boss", 100000.0, None, None, [1]),
     Employee("2", "Bob", "Mid", 70000.0, Some("1"), Some(0), [2]),
     Employee("3", "Cid", "Low", 50000.0, Some("2"), Some(1), [])]
  }

  /** Ana ranks above Bob, who ranks above Cid. */
  lemma ThreeLevelsRanked()
    ensures Ranked(ThreeLevelsArena(), map[0 := 2, 1 := 1, 2 := 0])
  {
    var org := ThreeLevelsArena();
    assert org[0].subordinates == [1] && org[1].subordinates == [2] && org[2].subordinates == [];
    assert Closed(org);
  }

  /** A manager of exactly one employee reports its own line, if any,
      then what that employee's audit reports. */
  lemma AuditThroughOnlyReport(staff: seq<Employee>, rank: map<nat, nat>, k: nat)
    requires Ranked(staff, rank) && k in rank && |staff[k].subordinates| == 1
    ensures staff[k].subordinates[0] < |staff|
    ensures Audit(staff, rank, k) == Line(staff, k) + Audit(staff, rank, staff[k].subordinates[0])
  {
    var ks := staff[k].subordinates;
    assert ks[1..] == [];
    assert AuditAll(staff, rank, rank[k], ks) == Audit(staff, rank, ks[0]);
  }

  /** Bob's 70000 lies within [60000, 75000] around Cid's 50000. */
  lemma BobWithinBand()
    ensures Closed(ThreeLevelsArena()) && !Flagged(ThreeLevelsArena(), 1)
  {
    ThreeLevelsRanked();
    var org := ThreeLevelsArena();
    assert SalarySum(org, [2]) == 50000.0;
    assert Average(org, [2]) == 50000.0;
  }

  /** Ana's 100000 lies within [84000, 105000] around Bob's 70000. */
  lemma AnaWithinBand()
    ensures Closed(ThreeLevelsArena()) && !Flagged(ThreeLevelsArena(), 0)
  {
    ThreeLevelsRanked();
    var org := ThreeLevelsArena();
    assert SalarySum(org, [1]) == 70000.0;
    assert Average(org, [1]) == 70000.0;
  }

  /** Neither manager is out of band, so the audit reports nothing. */
  lemma ThreeLevelsAudit()
    ensures Ranked(ThreeLevelsArena(), map[0 := 2, 1 := 1, 2 := 0])
    ensures Audit(ThreeLevelsArena(), map[0 := 2, 1 := 1, 2 := 0], 0) == []
  {
    var org := ThreeLevelsArena();
    var rank := map[0 := 2, 1 := 1, 2 := 0];
    ThreeLevelsRanked();
    BobWithinBand();
    AnaWithinBand();
    assert Audit(org, rank, 2) == [];
    AuditThroughOnlyReport(org, rank, 1);
    AuditThroughOnlyReport(org, rank, 0);
  }

  /** Cid, the only leaf, is at depth 2. */
  lemma ThreeLevelsDeep()
    ensures Ranked(ThreeLevelsArena(), map[0 := 2, 1 := 1, 2 := 0])
    ensures Deep(ThreeLevelsArena(), map[0 := 2, 1 := 1, 2 := 0], 0, 0) == []
  {
    var org := ThreeLevelsArena();
    var rank := map[0 := 2, 1 := 1, 2 := 0];
    ThreeLevelsRanked();
    DeepAtLeaf(org, rank, 2, 2);
    DeepThroughOnlyReport(org, rank, 1, 1);
    DeepThroughOnlyReport(org, rank, 0, 0);
  }

  /** Run on the three rows, `main` reports nothing. */
  lemma ThreeLevelsReportNothing(parse: string -> real)
    requires parse("100000") == 100000.0 && parse("70000") == 70000.0 && parse("50000") == 50000.0
    ensures WellShaped(ThreeLevels()) && HasRoot(ThreeLevels())
    ensures Ranked(Organisation(ThreeLevels(), parse), map[0 := 2, 1 := 1, 2 := 0])
    ensures Audit(Organisation(ThreeLevels(), parse), map[0 := 2, 1 := 1, 2 := 0], Root(ThreeLevels())) == []
    ensures Deep(Organisation(ThreeLevels(), parse), map[0 := 2, 1 := 1, 2 := 0], Root(ThreeLevels()), 0) == []
  {
    ThreeLevelsRoot();
    ThreeLevelsLinked(parse);
    ThreeLevelsAudit();
    ThreeLevelsDeep();
  }

  /** Six employees in a line of command: slot i manages slot i + 1, so
      slot i is at depth i below the CEO in slot 0. */
  function Chain(): seq<Employee> {
    [Employee("0", "Ceo", "Zero", 900.0, None, None, [1]),
     Employee("1", "Vp", "One", 800.0, Some("0"), Some(0), [2]),
     Employee("2", "Dir", "Two", 700.0, Some("1"), Some(1), [3]),
     Employee("3", "Lead", "Three", 600.0, Some("2"), Some(2), [4]),
     Employee("4", "Dev", "Four", 500.0, Some("3"), Some(3), [5]),
     Employee("5", "Intern", "Five", 400.0, Some("4"), Some(4), [])]
  }

  lemma ChainRanked()
    ensures Ranked(Chain(), map[0 := 5, 1 := 4, 2 := 3, 3 := 2, 4 := 1, 5 := 0])
  {
    var c := Chain();
    assert c[0].subordinates == [1] && c[1].subordinates == [2] && c[2].subordinates == [3];
    assert c[3].subordinates == [4] && c[4].subordinates == [5] && c[5].subordinates == [];
    assert Closed(c);
  }

  /** A leaf reports itself iff it is deeper than the threshold. */
  lemma DeepAtLeaf(staff: seq<Employee>, rank: map<nat, nat>, k: nat, d: nat)
    requires Ranked(staff, rank) && k in rank && staff[k].subordinates == []
    ensures Deep(staff, rank, k, d) == if d > Threshold then [DeepEntry(FullName(staff[k]), d)] else []
  {
  }

  /** A manager of exactly one employee reports what that employee's walk
      reports, one level deeper. */
  lemma DeepThroughOnlyReport(staff: seq<Employee>, rank: map<nat, nat>, k: nat, d: nat)
    requires Ranked(staff, rank) && k in rank && |staff[k].subordinates| == 1
    ensures staff[k].subordinates[0] < |staff|
    ensures Deep(staff, rank, k, d) == Deep(staff, rank, staff[k].subordinates[0], d + 1)
  {
    var ks := staff[k].subordinates;
    assert ks[1..] == [];
    assert DeepAll(staff, rank, rank[k], ks, d + 1) == Deep(staff, rank, ks[0], d + 1);
  }

  /** Below slot 3 of the chain, only the leaf at depth 5 is reported. */
  lemma ChainTailReported()
    ensures Ranked(Chain(), map[0 := 5, 1 := 4, 2 := 3, 3 := 2, 4 := 1, 5 := 0])
    ensures Deep(Chain(), map[0 := 5, 1 := 4, 2 := 3, 3 := 2, 4 := 1, 5 := 0], 3, 3) == [DeepEntry("Intern Five", 5)]
  {
    ChainRanked();
    var c := Chain();
    var rank := map[0 := 5, 1 := 4, 2 := 3, 3 := 2, 4 := 1, 5 := 0];
    DeepAtLeaf(c, rank, 5, 5);
    DeepThroughOnlyReport(c, rank, 4, 4);
    DeepThroughOnlyReport(c, rank, 3, 3);
    InternName();
  }

  lemma InternName()
    ensures FullName(Chain()[5]) == "Intern Five"
  {
    var e := Chain()[5];
    assert e.firstName == "Intern" && e.lastName == "Five";
  }

  /** The leaf at depth 5 is reported, and nothing else is. */
  lemma DepthFiveLeafReported()
    ensures Ranked(Chain(), map[0 := 5, 1 := 4, 2 := 3, 3 := 2, 4 := 1, 5 := 0])
    ensures Deep(Chain(), map[0 := 5, 1 := 4, 2 := 3, 3 := 2, 4 := 1, 5 := 0], 0, 0) == [DeepEntry("Intern Five", 5)]
  {
    ChainTailReported();
    var c := Chain();
    var rank := map[0 := 5, 1 := 4, 2 := 3, 3 := 2, 4 := 1, 5 := 0];
    DeepThroughOnlyReport(c, rank, 2, 2);
    DeepThroughOnlyReport(c, rank, 1, 1);
    DeepThroughOnlyReport(c, rank, 0, 0);
  }

  /** The same line of command one level shorter: its leaf is at depth 4. */
  function ShortChain(): seq<Employee> {
    [Employee("0", "Ceo", "Zero", 900.0, None, None, [1]),
     Employee("1", "Vp", "One", 800.0, Some("0"), Some(0), [2]),
     Employee("2", "Dir", "Two", 700.0, Some("1"), Some(1), [3]),
     Employee("3", "Lead", "Three", 600.0, Some("2"), Some(2), [4]),
     Employee("4", "Dev", "Four", 500.0, Some("3"), Some(3), [])]
  }

  lemma ShortChainRanked()
    ensures Ranked(ShortChain(), map[0 := 4, 1 := 3, 2 := 2, 3 := 1, 4 := 0])
  {
    var c := ShortChain();
    assert c[0].subordinates == [1] && c[1].subordinates == [2] && c[2].subordinates == [3];
    assert c[3].subordinates == [4] && c[4].subordinates == [];
    assert Closed(c);
  }

  /** Below slot 2 of the short chain nothing is reported. */
  lemma ShortChainTailSilent()
    ensures Ranked(ShortChain(), map[0 := 4, 1 := 3, 2 := 2, 3 := 1, 4 := 0])
    ensures Deep(ShortChain(), map[0 := 4, 1 := 3, 2 := 2, 3 := 1, 4 := 0], 2, 2) == []
  {
    ShortChainRanked();
    var c := ShortChain();
    var rank := map[0 := 4, 1 := 3, 2 := 2, 3 := 1, 4 := 0];
    DeepAtLeaf(c, rank, 4, 4);
    DeepThroughOnlyReport(c, rank, 3, 3);
    DeepThroughOnlyReport(c, rank, 2, 2);
  }

  /** A leaf at depth exactly 4 is not reported. */
  lemma DepthFourLeafNotReported()
    ensures Ranked(ShortChain(), map[0 := 4, 1 := 3, 2 := 2, 3 := 1, 4 := 0])
    ensures Deep(ShortChain(), map[0 := 4, 1 := 3, 2 := 2, 3 := 1, 4 := 0], 0, 0) == []
  {
    ShortChainTailSilent();
    var c := ShortChain();
    assert c[0].subordinates == [1] && c[1].subordinates == [2];
    SilentBelowTwoLevels(c, map[0 := 4, 1 := 3, 2 := 2, 3 := 1, 4 := 0]);
  }

  /** When slot 0 manages only slot 1, which manages only slot 2, and
      nothing is reported from slot 2 at depth 2, nothing is reported from
      slot 0 at depth 0. */
  lemma SilentBelowTwoLevels(staff: seq<Employee>, rank: map<nat, nat>)
    requires Ranked(staff, rank) && 0 in rank && 1 in rank && 2 in rank
    requires staff[0].subordinates == [1] && staff[1].subordinates == [2]
    requires Deep(staff, rank, 2, 2) == []
    ensures Deep(staff, rank, 0, 0) == []
  {
    DeepThroughOnlyReport(staff, rank, 1, 1);
    DeepThroughOnlyReport(staff, rank, 0, 0);
  }

  /** Ana (no manager) has no reports, while Bob and Cid name each other
      as manager. */
  function CycleAside(): seq<Row> {
    [["1", "Ana", "Boss", "100"],
     ["2", "Bob", "Mid", "50", "3"],
     ["3", "Cid", "Low", "50", "2"]]
  }

  lemma CycleAsideIndex()
    ensures WellShaped(CycleAside())
    ensures Index(CycleAside()) == map["1" := 0, "2" := 1, "3" := 2]
  {
    var lines := CycleAside();
    assert Front(lines) == lines[..2] && Front(lines[..2]) == lines[..1] && Front(lines[..1]) == [];
    assert Index(lines[..1]) == map["1" := 0];
    assert Index(lines[..2]) == map["1" := 0, "2" := 1];
  }

  /** Ana is the CEO. */
  lemma CycleAsideRoot()
    ensures WellShaped(CycleAside()) && HasRoot(CycleAside())
    ensures Root(CycleAside()) == 0
  {
    var lines := CycleAside();
    CycleAsideIndex();
    assert IsRoot(lines[0]);
    var c := Root(lines);
    var i :| 0 <= i < |lines| && IsRoot(lines[i]) && lines[i][0] in Index(lines) &&
      c == Index(lines)[lines[i][0]] && forall j :: i < j < |lines| ==> !IsRoot(lines[j]);
    assert !IsRoot(lines[1]) && !IsRoot(lines[2]);
  }

  /** After linking, Bob and Cid are each other's subordinates and Ana has
      none. */
  lemma CycleAsideLinks(parse: string -> real)
    ensures WellShaped(CycleAside()) && |Organisation(CycleAside(), parse)| == 3
    ensures Organisation(CycleAside(), parse)[0].subordinates == []
    ensures 2 in Organisation(CycleAside(), parse)[1].subordinates
    ensures 1 in Organisation(CycleAside(), parse)[2].subordinates
  {
    var lines := CycleAside();
    CycleAsideIndex();
    var idx := Index(lines);
    var org := Organisation(lines, parse);
    assert LinksUnder(lines[1], idx, 2) && idx[lines[1][0]] == 1;
    assert LinksUnder(lines[2], idx, 1) && idx[lines[2][0]] == 2;
    OrganisationSubordinates(lines, parse, 1, 2);
    OrganisationSubordinates(lines, parse, 2, 1);
    assert !LinksUnder(lines[0], idx, 0) && !LinksUnder(lines[1], idx, 0) && !LinksUnder(lines[2], idx, 0);
    if org[0].subordinates != [] {
      OrganisationSubordinates(lines, parse, 0, org[0].subordinates[0]);
      assert false;
    }
  }

  /** No rank can cover Bob: the cycle between Bob and Cid rules it out. */
  lemma CycleAsideHasNoFullRank(parse: string -> real, rank: map<nat, nat>)
    requires 1 in rank
    ensures WellShaped(CycleAside())
    ensures !Ranked(Organisation(CycleAside(), parse), rank)
  {
    CycleAsideLinks(parse);
  }

  /** The walks start at Ana and stop at once, so ranking Ana alone meets
      what `Analyze` needs, and both reports are empty: the cycle the walks
      never reach does not matter. */
  lemma CycleAsideReportsNothing(parse: string -> real)
    ensures WellShaped(CycleAside()) && HasRoot(CycleAside())
    ensures Ranked(Organisation(CycleAside(), parse), map[0 := 0])
    ensures Root(CycleAside()) in map[0 := 0]
    ensures Audit(Organisation(CycleAside(), parse), map[0 := 0], Root(CycleAside())) == []
    ensures Deep(Organisation(CycleAside(), parse), map[0 := 0], Root(CycleAside()), 0) == []
  {
    CycleAsideRoot();
    CycleAsideLinks(parse);
    var org := Organisation(CycleAside(), parse);
    assert Ranked(org, map[0 := 0]);
    DeepAtLeaf(org, map[0 := 0], 0, 0);
  }
}
