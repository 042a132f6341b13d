/**
 * Busyness scoring of team members (pkg/icassigner/busyness/busyness.go):
 * each member's recent issue load, and the report that groups members of equal
 * load into levels of strictly ascending load.
 */
module Busyness {
  import opened Wrappers
  import opened GitHub
  import Durations
  import opened MapIteration

  /** How far back closed issues still count: `now.Add(-7 * 24 * time.Hour)`. */
  const Lookback: int := 7 * Durations.Day

  /** The page size asked of the issue listing. */
  const ListAmount: nat := 20

  /** One level of the report: every member whose busyness is `busyness`. */
  datatype Level = Level(busyness: int, users: seq<string>)

  /** A busyness report, ascending in busyness. */
  type Report = seq<Level>

  /**
   * The `busynessClient` interface: the busyness of a member since an instant.
   * In production it is `GithubBusynessClient.Busyness`, in the tests a fixed table.
   */
  type BusynessFn = (int, string) -> int

  // ---------------------------------------------------------------------------
  // Grouping members into levels

  /** The members of `members`, in their order, whose busyness since `since` is `b`. */
  function WithBusyness(members: seq<string>, busyness: BusynessFn, since: int, b: int): seq<string>
    decreases |members|
  {
    if members == [] then []
    else
      var last := members[|members| - 1];
      WithBusyness(members[..|members| - 1], busyness, since, b) + (if busyness(since, last) == b then [last] else [])
  }

  ghost predicate StrictlyAscending(report: Report)
  {
    forall i, j :: 0 <= i < j < |report| ==> report[i].busyness < report[j].busyness
  }

  /**
   * `report` is the busyness report of `members`: levels strictly ascending,
   * each level non-empty and holding exactly the members of its busyness in
   * member order, and every member's busyness has a level.
   */
  ghost predicate IsReportOf(report: Report, members: seq<string>, busyness: BusynessFn, since: int)
  {
    && StrictlyAscending(report)
    && (forall i :: 0 <= i < |report| ==>
          report[i].users != [] && report[i].users == WithBusyness(members, busyness, since, report[i].busyness))
    && (forall m :: m in members ==>
          exists i :: 0 <= i < |report| && report[i].busyness == busyness(since, m))
  }

  lemma {:induction false} InWithBusyness(members: seq<string>, busyness: BusynessFn, since: int, b: int, m: string)
    ensures m in WithBusyness(members, busyness, since, b) <==> m in members && busyness(since, m) == b
    decreases |members|
  {
    if members != [] {
      var init := members[..|members| - 1];
      InWithBusyness(init, busyness, since, b, m);
      assert members == init + [members[|members| - 1]];
    }
  }

  /** Every member stands in exactly one level of the report. */
  lemma EveryMemberInOneLevel(report: Report, members: seq<string>, busyness: BusynessFn, since: int, m: string)
    requires IsReportOf(report, members, busyness, since)
    requires m in members
    ensures exists i :: 0 <= i < |report| && m in report[i].users
    ensures forall i, j :: 0 <= i < |report| && 0 <= j < |report| && m in report[i].users && m in report[j].users ==> i == j
  {
    var i :| 0 <= i < |report| && report[i].busyness == busyness(since, m);
    InWithBusyness(members, busyness, since, report[i].busyness, m);
    forall k | 0 <= k < |report| && m in report[k].users
      ensures report[k].busyness == busyness(since, m)
    {
      InWithBusyness(members, busyness, since, report[k].busyness, m);
    }
  }

  /** Every user of a level is a member, and has that level's busyness. */
  lemma LevelUsersAreMembers(report: Report, members: seq<string>, busyness: BusynessFn, since: int, i: int, u: string)
    requires IsReportOf(report, members, busyness, since)
    requires 0 <= i < |report| && u in report[i].users
    ensures u in members && busyness(since, u) == report[i].busyness
  {
    InWithBusyness(members, busyness, since, report[i].busyness, u);
  }

  /** Past an equal first level, two strictly ascending reports with the same levels still share their levels. */
  lemma TailsShareLevels(r1: Report, r2: Report, x: Level)
    requires StrictlyAscending(r1) && StrictlyAscending(r2)
    requires forall y :: y in r1 ==> y in r2
    requires r1 != [] && r2 != [] && r1[0] == r2[0]
    requires x in r1[1..]
    ensures x in r2[1..]
  {
    var k :| 1 <= k < |r1| && r1[k] == x;
    assert x in r2;
    var m :| 0 <= m < |r2| && r2[m] == x;
    assert r1[0].busyness < r1[k].busyness;
    assert r2[1..][m - 1] == x;
  }

  lemma AscendingTail(r: Report)
    requires StrictlyAscending(r) && r != []
    ensures StrictlyAscending(r[1..])
  {
    forall i, j | 0 <= i < j < |r| - 1 ensures r[1..][i].busyness < r[1..][j].busyness {
      assert r[1..][i] == r[i + 1] && r[1..][j] == r[j + 1];
    }
  }

  lemma SameFirstLevel(r1: Report, r2: Report)
    requires StrictlyAscending(r1) && StrictlyAscending(r2)
    requires forall x :: x in r1 <==> x in r2
    requires r1 != [] && r2 != []
    ensures r1[0] == r2[0]
  {
    assert r1[0] in r2 && r2[0] in r1;
    var j :| 0 <= j < |r2| && r2[j] == r1[0];
    var i :| 0 <= i < |r1| && r1[i] == r2[0];
  }

  lemma BothEmpty(r1: Report, r2: Report)
    requires forall x :: x in r1 <==> x in r2
    ensures r1 == [] <==> r2 == []
  {
    if r1 != [] { assert r1[0] in r2; }
    if r2 != [] { assert r2[0] in r1; }
  }

  /** Two strictly ascending reports holding the same levels are equal. */
  lemma {:induction false} AscendingUnique(r1: Report, r2: Report)
    requires StrictlyAscending(r1) && StrictlyAscending(r2)
    requires forall x :: x in r1 <==> x in r2
    ensures r1 == r2
    decreases |r1|
  {
    BothEmpty(r1, r2);
    if r1 != [] && r2 != [] {
      SameFirstLevel(r1, r2);
      var t1, t2 := r1[1..], r2[1..];
      forall x ensures x in t1 <==> x in t2 {
        if x in t1 { TailsShareLevels(r1, r2, x); }
        if x in t2 { TailsShareLevels(r2, r1, x); }
      }
      AscendingTail(r1);
      AscendingTail(r2);
      AscendingUnique(t1, t2);
      assert r1 == [r1[0]] + t1 && r2 == [r2[0]] + t2;
    }
  }

  /** A level of one report of the members is also a level of any other. */
  lemma LevelShared(r1: Report, r2: Report, members: seq<string>, busyness: BusynessFn, since: int, x: Level)
    requires IsReportOf(r1, members, busyness, since)
    requires IsReportOf(r2, members, busyness, since)
    requires x in r1
    ensures x in r2
  {
    var i :| 0 <= i < |r1| && r1[i] == x;
    var u := x.users[0];
    LevelUsersAreMembers(r1, members, busyness, since, i, u);
    var j :| 0 <= j < |r2| && r2[j].busyness == busyness(since, u);
    assert r2[j] == x;
  }

  /**
   * The report of a team is unique: whatever order the Go map of levels is
   * visited in, sorting yields the same report.
   */
  lemma ReportUnique(r1: Report, r2: Report, members: seq<string>, busyness: BusynessFn, since: int)
    requires IsReportOf(r1, members, busyness, since)
    requires IsReportOf(r2, members, busyness, since)
    ensures r1 == r2
  {
    forall x ensures x in r1 <==> x in r2 {
      if x in r1 { LevelShared(r1, r2, members, busyness, since, x); }
      if x in r2 { LevelShared(r2, r1, members, busyness, since, x); }
    }
    AscendingUnique(r1, r2);
  }

  // ---------------------------------------------------------------------------
  // calculateBusynessForTeam

  ghost predicate DistinctBusyness(levels: seq<Level>)
  {
    forall i, j :: 0 <= i < |levels| && 0 <= j < |levels| && i != j ==> levels[i].busyness != levels[j].busyness
  }

  method Swap(a: array<Level>, i: int, j: int)
    requires 0 <= i < a.Length && 0 <= j < a.Length
    requires DistinctBusyness(a[..])
    modifies a
    ensures a[i] == old(a[j]) && a[j] == old(a[i])
    ensures forall k :: 0 <= k < a.Length && k != i && k != j ==> a[k] == old(a[k])
    ensures multiset(a[..]) == old(multiset(a[..]))
    ensures DistinctBusyness(a[..])
  {
    ghost var was := a[..];
    a[i], a[j] := a[j], a[i];
    forall p, q | 0 <= p < a.Length && 0 <= q < a.Length && p != q
      ensures a[..][p].busyness != a[..][q].busyness
    {
      var p' := if p == i then j else if p == j then i else p;
      var q' := if q == i then j else if q == j then i else q;
      assert a[p] == was[p'] && a[q] == was[q'];
    }
  }

  /** `slices.SortFunc` by ascending busyness, here an insertion sort; the busyness values are distinct. */
  method SortByBusyness(a: array<Level>)
    requires DistinctBusyness(a[..])
    modifies a
    ensures StrictlyAscending(a[..])
    ensures multiset(a[..]) == old(multiset(a[..]))
  {
    if a.Length == 0 { return; }
    for i := 1 to a.Length
      invariant DistinctBusyness(a[..])
      invariant forall p, q :: 0 <= p < q < i ==> a[p].busyness < a[q].busyness
      invariant multiset(a[..]) == old(multiset(a[..]))
    {
      SiftDown(a, i);
    }
  }

  /** One insertion step: moves `a[i]` down into the ascending prefix `a[..i]`. */
  method SiftDown(a: array<Level>, i: int)
    requires 0 < i < a.Length
    requires DistinctBusyness(a[..])
    requires forall p, q :: 0 <= p < q < i ==> a[p].busyness < a[q].busyness
    modifies a
    ensures DistinctBusyness(a[..])
    ensures forall p, q :: 0 <= p < q <= i ==> a[p].busyness < a[q].busyness
    ensures multiset(a[..]) == old(multiset(a[..]))
  {
    var j := i;
    while j > 0 && a[j - 1].busyness > a[j].busyness
      invariant 0 <= j <= i
      invariant DistinctBusyness(a[..])
      invariant forall p, q :: 0 <= p < q <= i && p != j && q != j ==> a[p].busyness < a[q].busyness
      invariant forall q :: j < q <= i ==> a[j].busyness < a[q].busyness
      invariant multiset(a[..]) == old(multiset(a[..]))
    {
      Swap(a, j - 1, j);
      j := j - 1;
    }
    assert j > 0 ==> a[j - 1].busyness < a[j].busyness;
  }

  /**
   * The `busyness` map that `calculateBusynessForTeam` fills through
   * `addMember`: each busyness that some member has, to those members in order.
   */
  method GroupByBusyness(members: seq<string>, busyness: BusynessFn, since: int) returns (byBusyness: map<int, seq<string>>)
    ensures forall b :: b in byBusyness ==>
      byBusyness[b] != [] && byBusyness[b] == WithBusyness(members, busyness, since, b)
    ensures forall m :: m in members ==> busyness(since, m) in byBusyness
  {
    byBusyness := map[];
    for k := 0 to |members|
      invariant forall b :: b in byBusyness ==>
        byBusyness[b] != [] && byBusyness[b] == WithBusyness(members[..k], busyness, since, b)
      invariant forall j :: 0 <= j < k ==> busyness(since, members[j]) in byBusyness
    {
      var m := members[k];
      var b := busyness(since, m);
      assert members[..k + 1][..k] == members[..k];
      if b in byBusyness {
        byBusyness := byBusyness[b := byBusyness[b] + [m]];
      } else {
        var prev := WithBusyness(members[..k], busyness, since, b);
        if prev != [] {
          InWithBusyness(members[..k], busyness, since, b, prev[0]);
        }
        byBusyness := byBusyness[b := [m]];
      }
    }
    assert members[..|members|] == members;
  }

  /** The levels of a busyness map, one per key, in map iteration order. */
  method LevelsOf(byBusyness: map<int, seq<string>>) returns (levels: seq<Level>)
    ensures forall i :: 0 <= i < |levels| ==>
      levels[i].busyness in byBusyness && levels[i].users == byBusyness[levels[i].busyness]
    ensures forall b :: b in byBusyness ==> exists i :: 0 <= i < |levels| && levels[i].busyness == b
    ensures DistinctBusyness(levels)
  {
    levels := [];
    var rest := byBusyness.Keys;
    while rest != {}
      invariant rest <= byBusyness.Keys
      invariant forall i :: 0 <= i < |levels| ==>
        levels[i].busyness in byBusyness && levels[i].busyness !in rest && levels[i].users == byBusyness[levels[i].busyness]
      invariant forall b :: b in byBusyness && b !in rest ==> exists i :: 0 <= i < |levels| && levels[i].busyness == b
      invariant DistinctBusyness(levels)
      decreases rest
    {
      var b := Pick(rest);
      ghost var before := levels;
      levels := levels + [Level(b, byBusyness[b])];
      rest := rest - {b};
      forall c | c in byBusyness && c !in rest
        ensures exists i :: 0 <= i < |levels| && levels[i].busyness == c
      {
        if c == b {
          assert levels[|before|].busyness == c;
        } else {
          var i :| 0 <= i < |before| && before[i].busyness == c;
          assert levels[i].busyness == c;
        }
      }
    }
  }

  /**
   * `calculateBusynessForTeam`: asks the busyness of every member since
   * `now - Lookback`, groups members of equal busyness (member order kept)
   * and sorts the levels ascending.
   */
  method CalculateBusynessForTeam(now: int, busyness: BusynessFn, members: seq<string>) returns (report: Report)
    ensures IsReportOf(report, members, busyness, now - Lookback)
  {
    var since := now - Lookback;
    var byBusyness := GroupByBusyness(members, busyness, since);
    var unsorted := LevelsOf(byBusyness);
    var a := new Level[|unsorted|](i requires 0 <= i < |unsorted| => unsorted[i]);
    assert a[..] == unsorted;
    SortByBusyness(a);
    report := a[..];
    SortedLevelsFormReport(report, unsorted, byBusyness, members, busyness, since);
  }

  lemma SortedLevelsFormReport(report: Report, unsorted: seq<Level>, byBusyness: map<int, seq<string>>,
                               members: seq<string>, busyness: BusynessFn, since: int)
    requires forall b :: b in byBusyness ==>
      byBusyness[b] != [] && byBusyness[b] == WithBusyness(members, busyness, since, b)
    requires forall m :: m in members ==> busyness(since, m) in byBusyness
    requires forall i :: 0 <= i < |unsorted| ==>
      unsorted[i].busyness in byBusyness && unsorted[i].users == byBusyness[unsorted[i].busyness]
    requires forall b :: b in byBusyness ==> exists i :: 0 <= i < |unsorted| && unsorted[i].busyness == b
    requires StrictlyAscending(report)
    requires multiset(report) == multiset(unsorted)
    ensures IsReportOf(report, members, busyness, since)
  {
    forall i | 0 <= i < |report|
      ensures report[i].busyness in byBusyness && report[i].users == byBusyness[report[i].busyness]
    {
      assert report[i] in multiset(unsorted);
    }
    forall m | m in members
      ensures exists i :: 0 <= i < |report| && report[i].busyness == busyness(since, m)
    {
      assert busyness(since, m) in byBusyness;
      var p :| 0 <= p < |unsorted| && unsorted[p].busyness == busyness(since, m);
      assert unsorted[p] in multiset(report);
      var i :| 0 <= i < |report| && report[i] == unsorted[p];
    }
  }

  // ---------------------------------------------------------------------------
  // githubBusynessClient.getBusyness

  /**
   * The GitHub-backed busyness client: the labels whose open issues do not
   * count, and the issue listing `(since, assignee, amount)`, which yields
   * `None` when the call fails.
   */
  datatype GithubBusynessClient = GithubBusynessClient(
    labelsToIgnore: set<string>,
    listByAssignee: (int, string, nat) -> Option<seq<Issue>>)
  {
    /** The busyness that `getBusyness` computes, as a specification. */
    function Busyness(since: int, member: string): (b: int)
      ensures 0 <= b
      ensures listByAssignee(since, member, ListAmount).Some? ==> b <= |listByAssignee(since, member, ListAmount).value|
    {
      match listByAssignee(since, member, ListAmount)
      case None => 0
      case Some(issues) => Score(issues, since, labelsToIgnore)
    }
  }

  /** `newGithubBusynessClient` without the repository lookup: the ignored labels become a set. */
  function NewGithubBusynessClient(ignorableLabels: seq<string>, listByAssignee: (int, string, nat) -> Option<seq<Issue>>): (c: GithubBusynessClient)
    ensures forall l :: l in c.labelsToIgnore <==> l in ignorableLabels
  {
    GithubBusynessClient((set l | l in ignorableLabels), listByAssignee)
  }

  /** Some label of `labels` is to be ignored. */
  predicate HasLabelToIgnore(labels: seq<Label>, labelsToIgnore: set<string>)
    ensures HasLabelToIgnore(labels, labelsToIgnore) ==> labels != [] && labelsToIgnore != {}
  {
    exists i :: 0 <= i < |labels| && labels[i].GetName() in labelsToIgnore
  }

  /** What one issue adds to the busyness of its assignee. */
  function IssueWeight(issue: Issue, since: int, labelsToIgnore: set<string>): (w: nat)
    ensures w <= 1
    ensures w == 1 ==> issue.GetState() == "open" || issue.GetState() == "closed"
  {
    match issue.GetState()
    case "open" => if HasLabelToIgnore(issue.labels, labelsToIgnore) then 0 else 1
    case "closed" => if since < issue.GetClosedAt() then 1 else 0
    case _ => 0
  }

  /** The sum of the issues' weights; each adds at most one, so it never exceeds their number. */
  function Score(issues: seq<Issue>, since: int, labelsToIgnore: set<string>): (n: nat)
    ensures n <= |issues|
    decreases |issues|
  {
    if issues == [] then 0
    else Score(issues[..|issues| - 1], since, labelsToIgnore) + IssueWeight(issues[|issues| - 1], since, labelsToIgnore)
  }

  /** `containsLabelsToIgnore`. */
  method ContainsLabelsToIgnore(labels: seq<Label>, labelsToIgnore: set<string>) returns (r: bool)
    ensures r <==> HasLabelToIgnore(labels, labelsToIgnore)
  {
    for i := 0 to |labels|
      invariant forall j :: 0 <= j < i ==> labels[j].GetName() !in labelsToIgnore
    {
      if labels[i].GetName() in labelsToIgnore {
        return true;
      }
    }
    return false;
  }

  /** `getBusyness`: 0 when the listing fails, otherwise the number of issues that count. */
  method GetBusyness(client: GithubBusynessClient, since: int, member: string) returns (busyness: int)
    ensures busyness == client.Busyness(since, member)
    ensures client.listByAssignee(since, member, ListAmount).None? ==> busyness == 0
  {
    var listing := client.listByAssignee(since, member, ListAmount);
    if listing.None? {
      return 0;
    }
    var issues := listing.value;
    busyness := 0;
    for k := 0 to |issues|
      invariant busyness == Score(issues[..k], since, client.labelsToIgnore)
    {
      var issue := issues[k];
      assert issues[..k + 1][..k] == issues[..k];
      match issue.GetState()
      case "open" =>
        var ignored := ContainsLabelsToIgnore(issue.labels, client.labelsToIgnore);
        if !ignored {
          busyness := busyness + 1;
        }
      case "closed" =>
        if since < issue.GetClosedAt() {
          busyness := busyness + 1;
        }
      case _ =>
    }
    assert issues[..|issues|] == issues;
  }

  /** The weight of one issue, case by case. */
  lemma IssueWeightCases(issue: Issue, since: int, labelsToIgnore: set<string>)
    ensures issue.GetState() == "open" ==>
      (IssueWeight(issue, since, labelsToIgnore) == 1 <==> !HasLabelToIgnore(issue.labels, labelsToIgnore))
    ensures issue.GetState() == "closed" ==>
      (IssueWeight(issue, since, labelsToIgnore) == 1 <==> since < issue.GetClosedAt())
    ensures issue.GetState() != "open" && issue.GetState() != "closed" ==> IssueWeight(issue, since, labelsToIgnore) == 0
    ensures IssueWeight(issue, since, labelsToIgnore) <= 1
  {
  }

  /** The busyness table of the busyness test's first case. */
  function ExampleBusyness(since: int, m: string): int
  {
    if m == "IC 1" then 1 else if m == "IC 2" || m == "IC 3" then 3 else 0
  }

  lemma ExampleLevels(since: int)
    ensures WithBusyness(["IC 1", "IC 2", "IC 3"], ExampleBusyness, since, 1) == ["IC 1"]
    ensures WithBusyness(["IC 1", "IC 2", "IC 3"], ExampleBusyness, since, 3) == ["IC 2", "IC 3"]
  {
    var m3: seq<string> := ["IC 1", "IC 2", "IC 3"];
    var m2: seq<string> := ["IC 1", "IC 2"];
    var m1: seq<string> := ["IC 1"];
    assert m3[..2] == m2 && m2[..1] == m1 && m1[..0] == [];
    assert WithBusyness(m1, ExampleBusyness, since, 1) == ["IC 1"];
    assert WithBusyness(m2, ExampleBusyness, since, 1) == ["IC 1"];
    assert WithBusyness(m1, ExampleBusyness, since, 3) == [];
    assert WithBusyness(m2, ExampleBusyness, since, 3) == ["IC 2"];
  }

  lemma ExampleExpected(since: int)
    ensures IsReportOf([Level(1, ["IC 1"]), Level(3, ["IC 2", "IC 3"])], ["IC 1", "IC 2", "IC 3"], ExampleBusyness, since)
  {
    var members := ["IC 1", "IC 2", "IC 3"];
    var expected := [Level(1, ["IC 1"]), Level(3, ["IC 2", "IC 3"])];
    ExampleLevels(since);
    forall m | m in members
      ensures exists i :: 0 <= i < |expected| && expected[i].busyness == ExampleBusyness(since, m)
    {
      if m == "IC 1" { assert expected[0].busyness == ExampleBusyness(since, m); }
      else { assert expected[1].busyness == ExampleBusyness(since, m); }
    }
  }

  /** The report of the busyness test's first case: busyness 1, 3, 3 for three members. */
  lemma ExampleReport(now: int, r: Report)
    requires IsReportOf(r, ["IC 1", "IC 2", "IC 3"], ExampleBusyness, now - Lookback)
    ensures r == [Level(1, ["IC 1"]), Level(3, ["IC 2", "IC 3"])]
  {
    ExampleExpected(now - Lookback);
    ReportUnique(r, [Level(1, ["IC 1"]), Level(3, ["IC 2", "IC 3"])], ["IC 1", "IC 2", "IC 3"], ExampleBusyness, now - Lookback);
  }
}
