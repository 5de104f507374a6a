# BigCompanyAnalysis in Dafny

A verified model of `src/BigCompanyAnalysis.java`. The program reads one
employee per CSV row: id, first name, last name, salary and, optionally,
a manager id. It builds an `Employee` object per row and keys it by id in
a map, then links every employee under its manager. From the CEO it runs
two reports:

- the salary audit, which flags each manager whose salary is strictly
  outside [1.2, 1.5] times the average salary of their direct reports;
- the depth report, which lists each employee without reports who sits
  more than 4 levels below the CEO.

Model shape:

- `records.dfy` (`Records`): the `Employee` record and an `Arena` class.
  The arena holds every `Employee` object of a run: slot i is the object
  created for data row i. A reference to an object is its slot index. So
  the `manager` back-reference and the `subordinates` list hold slot
  indices. `Arena.AddSubordinate` is `Employee.addSubordinate`, changing
  the arena in place.
- `loading.dfy` (`Loading`): the read loop of `main` as the method `Load`,
  proved against the functions `Index` (the id map, last write wins) and
  `Staff` (the created objects).
- `linking.dfy` (`Linking`): the link loop of `main` as the method `Link`.
  It is proved against the row folds `Linked` (the arena) and `Ceo`.
  Lemmas characterise these per record: `Children`, `LastManager`.
- `hierarchy.dfy` (`Hierarchy`): the depth-first pre-order walk
  `PreOrder` that both reports follow. The walks take a `rank`, a map
  from slots to numbers. Its domain holds the walk's start and every
  subordinate of a slot in it, and the rank strictly drops from a manager
  to each subordinate. This gives the walks a termination measure. Slots
  the walk never reaches need no rank, so a cycle among them is allowed.
  A rank exists when the links reachable from the start are acyclic: the
  height below each slot will do.
- `salary_audit.dfy` (`SalaryAudit`) and `depth_report.dfy`
  (`DepthReport`): `checkSalaryConstraints` and `findDeepEmployees`. They
  are functions that return the printed lines, in print order, as
  datatype values. Each is proved equal to a filter of the pre-order walk.
- `analysis.dfy` (`CompanyAnalysis`): `main` as `Analyze`, which chains
  `Load`, `Link` and the two reports.
- `scenarios.dfy` (`Scenarios`): worked inputs. One is a three-level
  company with nothing to report. Two others sit either side of the depth
  boundary: a leaf at depth 5 is reported, a leaf at depth 4 is not. The
  last has two employees who name each other as manager, next to a CEO
  without reports: the walks end at once and report nothing.

On unusual input the code behaves as follows, and so does the model:

- **Duplicate ids:** a later row replaces the earlier map entry. Both
  objects stay in the arena, and the earlier one can no longer be found
  by id.
- **Unresolved manager id:** a row whose manager id is not in the map
  creates no link and raises no error.
- **Several rows without a manager:** the last such row becomes the CEO.

## Model

| member | source | states |
|---|---|---|
| `Records.ManagerField` | src/BigCompanyAnalysis.java:57 | the manager field is present iff the row has more than four fields, and is then the fifth field |
| `Records.NewEmployee` | src/BigCompanyAnalysis.java:18-24 | the new record holds the row's id, names and parsed salary, the fifth field as manager id when present, no manager and no subordinates |
| `Records.FullName` | src/BigCompanyAnalysis.java:31-33 | the full name is the first name, one space, then the last name (length and every part) |
| `Records.WithSubordinate` | src/BigCompanyAnalysis.java:26-29 | e is appended at the end of m's subordinates, e's manager becomes m, and every other record and field is unchanged |
| `Records.Arena.constructor` | src/BigCompanyAnalysis.java:47 | the arena starts out holding exactly the given records |
| `Records.Arena.AddSubordinate` | src/BigCompanyAnalysis.java:26-29 | the arena after the call is `WithSubordinate` of the arena before it |
| `Loading.Index` | src/BigCompanyAnalysis.java:47 | every slot the id map names is a row of the input |
| `Loading.Staff` | src/BigCompanyAnalysis.java:47-49 | one record per row, in row order, each exactly the record the constructor builds from that row |
| `Loading.IndexDomain` | src/BigCompanyAnalysis.java:44-49 | the map's keys are exactly the ids of the rows |
| `Loading.IndexLastRow` | src/BigCompanyAnalysis.java:44-49 | each key maps to a row with that id and no later row has it: later rows replace earlier entries |
| `Loading.DistinctIndex` | src/BigCompanyAnalysis.java:47 | with distinct ids, every row's id maps to that row |
| `Loading.Load` | src/BigCompanyAnalysis.java:44-50 | the loop keeps every row in file order, builds the id map `Index` and creates the records `Staff` |
| `Linking.LinkRow` | src/BigCompanyAnalysis.java:56-66 | one row leaves the number of records unchanged |
| `Linking.Linked` | src/BigCompanyAnalysis.java:55-67 | linking leaves the number of records unchanged |
| `Linking.Link` | src/BigCompanyAnalysis.java:54-67 | the loop leaves the arena equal to `Linked` of the rows and returns `Ceo` of the rows |
| `Linking.LinkedEffect` | src/BigCompanyAnalysis.java:55-67 | after linking, each record keeps its data; its subordinates gain exactly `Children` in row order; its manager is the one the last row linking it names, else unchanged |
| `Linking.KeyedAppend` | src/BigCompanyAnalysis.java:55 | two lists of rows whose ids resolve concatenate to one |
| `Linking.ChildrenAppend` | src/BigCompanyAnalysis.java:55-65 | subordinates appear in the order of their rows: earlier rows contribute first |
| `Linking.ChildrenMembers` | src/BigCompanyAnalysis.java:61-65 | a slot is linked under k iff some row with a resolving manager id names k as manager and that slot as its employee |
| `Linking.RowWithoutLinkIsInert` | src/BigCompanyAnalysis.java:59-65 | a CEO row or a row whose manager id does not resolve changes no subordinate list |
| `Linking.LastManagerIsLastLink` | src/BigCompanyAnalysis.java:62-64 | an employee gets a manager iff some row links it, and the manager comes from the last such row |
| `Linking.CeoIsLastRoot` | src/BigCompanyAnalysis.java:57-60 | the CEO is set iff some row has a missing or empty manager id, and it is the employee of the last such row; other rows never change it |
| `Linking.LinkedStaysClosed` | src/BigCompanyAnalysis.java:62-64 | linking only adds existing records to subordinate lists |
| `Linking.LoadedRowsAreKeyed` | src/BigCompanyAnalysis.java:58 | every row's id resolves in the map the loading loop builds, to an existing slot |
| `Hierarchy.PreOrder` | src/BigCompanyAnalysis.java:92-99 | the walk from k starts at k at the given depth, visits only existing slots, none shallower than the start |
| `Hierarchy.PreOrderAll` | src/BigCompanyAnalysis.java:96-98 | the walks over a subordinate list visit only existing slots at least as deep as the list |
| `Hierarchy.PreOrderParents` | src/BigCompanyAnalysis.java:96-98 | every later visit of a walk comes after a visit to its manager and is exactly one level deeper |
| `Hierarchy.PreOrderAllParents` | src/BigCompanyAnalysis.java:96-98 | every visit below a subordinate list is to a listed slot at the list's depth or comes after its manager, one level up |
| `Hierarchy.ParentsUnderRoot` | src/BigCompanyAnalysis.java:96-98 | visiting a record before the walks of its subordinates puts every visit after its manager |
| `Hierarchy.ParentUnderRootAt` | src/BigCompanyAnalysis.java:96-98 | the same fact for one visit |
| `Hierarchy.ParentsSideBySide` | src/BigCompanyAnalysis.java:96 | the walks of consecutive subordinates keep every visit after its manager or at the list's depth |
| `SalaryAudit.ViolationOf` | src/BigCompanyAnalysis.java:79-84 | the line carries the full name, the salary, the average of the direct reports and the bounds 1.2 and 1.5 times that average |
| `SalaryAudit.Line` | src/BigCompanyAnalysis.java:78-85 | a record prints a line iff it has direct reports and its salary is strictly outside the band, and then exactly its violation |
| `SalaryAudit.Audit` | src/BigCompanyAnalysis.java:77-90 | every line reported lies strictly outside the band it prints |
| `SalaryAudit.AuditAll` | src/BigCompanyAnalysis.java:86-88 | every line reported for a subordinate list lies strictly outside the band it prints |
| `SalaryAudit.FlagsAppend` | src/BigCompanyAnalysis.java:86-88 | the lines for two consecutive stretches of a walk are the lines of each, in order |
| `SalaryAudit.FlagsMembers` | src/BigCompanyAnalysis.java:78-85 | a line is reported for a walk iff it is the violation of a visited record that is flagged |
| `SalaryAudit.AuditFollowsPreOrder` | src/BigCompanyAnalysis.java:77-90 | the audit reports exactly the flagged records of the pre-order walk, in walk order, recursing below every record with reports |
| `SalaryAudit.AuditAllFollowsPreOrder` | src/BigCompanyAnalysis.java:86-88 | the same for the loop over a subordinate list |
| `SalaryAudit.BandWithoutDivision` | src/BigCompanyAnalysis.java:79-82 | with n reports summing to sum, a salary s is out of band iff 10ns < 12sum or 10ns > 15sum |
| `SalaryAudit.OnBoundNotFlagged` | src/BigCompanyAnalysis.java:80-82 | with a non-negative average, a salary exactly on either bound is not out of band |
| `SalaryAudit.NegativeAverageFlagsBound` | src/BigCompanyAnalysis.java:80-82 | with a negative average the bounds cross, and a salary on the lower bound is out of band |
| `DepthReport.Deep` | src/BigCompanyAnalysis.java:92-99 | every reported depth exceeds 4 and is at least the starting depth |
| `DepthReport.DeepAll` | src/BigCompanyAnalysis.java:96-98 | the same for the loop over a subordinate list |
| `DepthReport.ReportsAppend` | src/BigCompanyAnalysis.java:96-98 | the lines for two consecutive stretches of a walk are the lines of each, in order |
| `DepthReport.ReportsMembers` | src/BigCompanyAnalysis.java:93-94 | a line is reported for a walk iff it names a visited record without reports, deeper than 4, with that visit's depth |
| `DepthReport.DeepFollowsPreOrder` | src/BigCompanyAnalysis.java:92-99 | the report lists exactly the reported visits of the pre-order walk, in walk order |
| `DepthReport.DeepAllFollowsPreOrder` | src/BigCompanyAnalysis.java:96-98 | the same for the loop over a subordinate list |
| `CompanyAnalysis.Organisation` | src/BigCompanyAnalysis.java:38-67 | the linked arena has one record per row, and every subordinate it lists is one of them |
| `CompanyAnalysis.Root` | src/BigCompanyAnalysis.java:54-60 | the CEO slot is the id-map slot of the last row with a missing or empty manager id |
| `CompanyAnalysis.Analyze` | src/BigCompanyAnalysis.java:37-75 | `main` prints the salary lines of the flagged records, then the depth lines of the deep leaves, each in pre-order from the CEO at depth 0; only the links reachable from the CEO need be acyclic |
| `CompanyAnalysis.OrganisationSubordinates` | src/BigCompanyAnalysis.java:55-67 | after both loops, x is a subordinate of k iff some row with a manager id resolving to k has x's slot as its employee |
| `CompanyAnalysis.ManagerRoundTrip` | src/BigCompanyAnalysis.java:62-64 | with distinct ids, an employee gets a manager iff its manager id resolves, and that manager is the record whose id is the manager id |
| `CompanyAnalysis.ManagerIffResolves` | src/BigCompanyAnalysis.java:59-64 | with distinct ids, an employee gets a manager iff its own row's manager id resolves |
| `CompanyAnalysis.BackReferenceNamesManager` | src/BigCompanyAnalysis.java:62-64 | with distinct ids, a set manager is the record whose id is the employee's manager id |
| `Scenarios.ThreeLevelsIndex` | src/BigCompanyAnalysis.java:44-50 | three rows with distinct ids map to slots 0, 1, 2 |
| `Scenarios.ThreeLevelsLinked` | src/BigCompanyAnalysis.java:55-67 | Ana over Bob over Cid: the linked arena holds exactly those links and back-references |
| `Scenarios.ThreeLevelsRoot` | src/BigCompanyAnalysis.java:57-60 | the only row without a manager id is the CEO |
| `Scenarios.ThreeLevelsRanked` | src/BigCompanyAnalysis.java:96-98 | the three-level arena is acyclic |
| `Scenarios.AuditThroughOnlyReport` | src/BigCompanyAnalysis.java:78-88 | a manager of one employee reports its own line, then that employee's audit |
| `Scenarios.BobWithinBand` | src/BigCompanyAnalysis.java:79-82 | 70000 over a single report of 50000 is within the band |
| `Scenarios.AnaWithinBand` | src/BigCompanyAnalysis.java:79-82 | 100000 over a single report of 70000 is within the band |
| `Scenarios.ThreeLevelsAudit` | src/BigCompanyAnalysis.java:77-90 | the audit of the three-level company reports nothing |
| `Scenarios.ThreeLevelsDeep` | src/BigCompanyAnalysis.java:92-99 | the depth report of the three-level company reports nothing |
| `Scenarios.ThreeLevelsReportNothing` | src/BigCompanyAnalysis.java:37-75 | run on the three rows, `main` reports nothing in either report |
| `Scenarios.ChainRanked` | src/BigCompanyAnalysis.java:96-98 | the six-level line of command is acyclic |
| `Scenarios.DeepAtLeaf` | src/BigCompanyAnalysis.java:93-94 | a record without reports is reported iff its depth exceeds 4 |
| `Scenarios.DeepThroughOnlyReport` | src/BigCompanyAnalysis.java:96-98 | a manager of one employee reports what that employee reports one level deeper |
| `Scenarios.ChainTailReported` | src/BigCompanyAnalysis.java:92-99 | from depth 3 down the chain, only the leaf at depth 5 is reported |
| `Scenarios.InternName` | src/BigCompanyAnalysis.java:31-33 | the chain's leaf is printed as "Intern Five" |
| `Scenarios.DepthFiveLeafReported` | src/BigCompanyAnalysis.java:92-99 | a leaf at depth 5 below the CEO is reported, with depth 5, and nothing else is |
| `Scenarios.ShortChainRanked` | src/BigCompanyAnalysis.java:96-98 | the five-level line of command is acyclic |
| `Scenarios.ShortChainTailSilent` | src/BigCompanyAnalysis.java:92-99 | from depth 2 down the short chain nothing is reported |
| `Scenarios.SilentBelowTwoLevels` | src/BigCompanyAnalysis.java:96-98 | a two-level line of single reports adds nothing to a silent report below it |
| `Scenarios.DepthFourLeafNotReported` | src/BigCompanyAnalysis.java:92-99 | a leaf at depth 4 below the CEO is not reported |
| `Scenarios.CycleAsideIndex` | src/BigCompanyAnalysis.java:44-50 | the three rows with distinct ids map to slots 0, 1, 2 |
| `Scenarios.CycleAsideRoot` | src/BigCompanyAnalysis.java:57-60 | Ana, the only row without a manager id, is the CEO |
| `Scenarios.CycleAsideLinks` | src/BigCompanyAnalysis.java:55-67 | Bob and Cid end up as each other's subordinates and Ana has none |
| `Scenarios.CycleAsideHasNoFullRank` | src/BigCompanyAnalysis.java:96-98 | no rank can cover Bob, who sits on the cycle |
| `Scenarios.CycleAsideReportsNothing` | src/BigCompanyAnalysis.java:37-99 | ranking Ana alone meets what `Analyze` needs, and both reports are empty despite the cycle |

## Left out

- Reading the file: the hard-coded path, `BufferedReader`, skipping the header and `String.split` are I/O and library behaviour. The model takes the data rows already split. `String.split` drops trailing empty fields, so an empty trailing manager field arrives as a four-field row, and both count as having no manager, as line 59 has it.
- `Double.parseDouble` is the parameter `parse: string -> real`. A `NumberFormatException` on a malformed salary is not modelled.
- Rows with fewer than four fields make the source throw `ArrayIndexOutOfBoundsException`. The model requires `WellShaped` rows instead.
- Salaries and averages are exact `real` values. Double rounding in the average and the bounds, and the `%.2f` formatting, are not modelled. The printed lines are datatype values and the headings printed by `main` are left out.
- With no row lacking a manager id, `ceo` stays null and the source throws `NullPointerException` at line 78. `Analyze` requires `HasRoot` instead.
- A cycle reachable from the CEO makes the source recurse until `StackOverflowError`. The walks require a `rank` on the slots they reach, which exists only when those links are acyclic. Cycles the walks never reach are allowed.
- The depth is a Java `int`. The model uses `nat`, and the overflow past 2^31 - 1 levels is not modelled.
- The source does not guarantee that every record is reached exactly once: records without a resolving manager, and earlier records with a repeated id, are never visited. The model proves no such claim.
- Running a report twice gives the same lines because the walks are functions of the arena. No separate idempotence lemma is stated.
- `Loading.Index`: its own contract only bounds the slots. Its key set is `Loading.IndexDomain` and last-write-wins is `Loading.IndexLastRow`.
- `Linking.Linked`: its own contract only keeps the number of records. The effect on each record is `Linking.LinkedEffect`.
- `Linking.LinkRow`: its own contract only keeps the number of records. Its effect is `Records.WithSubordinate` when the row resolves.
- `CompanyAnalysis.Organisation`: its own contract keeps the number of records and says every subordinate exists. Its subordinate lists are `CompanyAnalysis.OrganisationSubordinates`.
- `Hierarchy.PreOrder`: its own contract states the start and the bounds. The parent-before-child order is `Hierarchy.PreOrderParents`.
