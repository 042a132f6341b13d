/**
 * The IC assigner's decision for one issues event: stop on an ignored label,
 * find the responsible team from the labels, stop when a team member is
 * already assigned, rank the team by busyness, take the available members of
 * the least busy level that has any (or the whole team), choose one of them
 * at random, emit it as output and assign it.
 */
module ICAssigner {
  import opened Wrappers
  import opened Strings
  import opened GitHub
  import opened MapIteration
  import Busyness
  import Calendar

  // ---------------------------------------------------------------------------
  // Configuration

  datatype MemberConfig = MemberConfig(name: string, icalURL: string, googleCalendar: string, output: string)

  /** The zero `MemberConfig`. */
  const NoMember := MemberConfig("", "", "", "")

  datatype TeamConfig = TeamConfig(requireLabel: seq<string>, members: seq<MemberConfig>)

  /** The assigner's configuration; `unavailabilityLimit` in nanoseconds. */
  datatype Config = Config(unavailabilityLimit: int, teams: map<string, TeamConfig>, ignoredLabels: seq<string>)

  /** The default `ParseConfig` applies: an unset (zero) limit becomes six hours. */
  function WithDefaults(cfg: Config): (c: Config)
    ensures c.unavailabilityLimit != 0
    ensures cfg.unavailabilityLimit == 0 ==> c == cfg.(unavailabilityLimit := Calendar.DefaultUnavailabilityLimit)
    ensures cfg.unavailabilityLimit != 0 ==> c == cfg
    ensures c.teams == cfg.teams && c.ignoredLabels == cfg.ignoredLabels
  {
    if cfg.unavailabilityLimit == 0 then cfg.(unavailabilityLimit := Calendar.DefaultUnavailabilityLimit) else cfg
  }

  // ---------------------------------------------------------------------------
  // convertLabels, memberNames

  /** `convertLabels`: the names of the labels, by index; every name must be set. */
  method ConvertLabels(labels: seq<Label>) returns (names: seq<string>)
    requires forall i :: 0 <= i < |labels| ==> labels[i].name.Some?
    ensures |names| == |labels|
    ensures forall i :: 0 <= i < |labels| ==> names[i] == labels[i].name.value
  {
    var a := new string[|labels|];
    for i := 0 to |labels|
      invariant forall k :: 0 <= k < i ==> a[k] == labels[k].name.value
    {
      a[i] := labels[i].name.value;
    }
    names := a[..];
  }

  /** The names of the members, in order. */
  function Names(members: seq<MemberConfig>): (r: seq<string>)
    ensures |r| == |members|
    ensures forall i :: 0 <= i < |members| ==> r[i] == members[i].name
  {
    seq(|members|, i requires 0 <= i < |members| => members[i].name)
  }

  /** `memberNames`. */
  method MemberNames(members: seq<MemberConfig>) returns (result: seq<string>)
    ensures result == Names(members)
  {
    result := [];
    for i := 0 to |members|
      invariant result == Names(members[..i])
    {
      result := result + [members[i].name];
    }
    assert members[..|members|] == members;
  }

  // ---------------------------------------------------------------------------
  // The ignored-label short-circuit

  /** The nested loop over ignored labels and issue labels in `Run`. */
  method HasIgnoredLabel(ignoredLabels: seq<string>, labels: seq<string>) returns (found: bool)
    ensures found <==> exists l :: l in ignoredLabels && l in labels
  {
    for i := 0 to |ignoredLabels|
      invariant forall k :: 0 <= k < i ==> ignoredLabels[k] !in labels
    {
      for j := 0 to |labels|
        invariant forall k :: 0 <= k < j ==> labels[k] != ignoredLabels[i]
      {
        if ignoredLabels[i] == labels[j] {
          assert labels[j] in labels;
          return true;
        }
      }
    }
    return false;
  }

  // ---------------------------------------------------------------------------
  // findTeam

  /** The team-match test: some required label is among the labels. */
  function AnyRequiredLabel(required: seq<string>, labelSet: set<string>): (r: bool)
    ensures r <==> exists l :: l in required && l in labelSet
  {
    if required == [] then false
    else if required[0] in labelSet then true
    else AnyRequiredLabel(required[1..], labelSet)
  }

  ghost predicate Matches(team: TeamConfig, labels: seq<string>)
  {
    exists l :: l in team.requireLabel && l in labels
  }

  /** The teams named by `names`, in that order. */
  ghost function TeamsNamed(cfg: Config, names: seq<string>): seq<TeamConfig>
    requires forall n :: n in names ==> n in cfg.teams
  {
    seq(|names|, i requires 0 <= i < |names| => cfg.teams[names[i]])
  }

  /** The members of the teams, team after team. */
  ghost function AllMembers(teams: seq<TeamConfig>): seq<MemberConfig>
  {
    if teams == [] then [] else AllMembers(teams[..|teams| - 1]) + teams[|teams| - 1].members
  }

  /** The first member of `s` called `name`. */
  function FirstNamed(s: seq<MemberConfig>, name: string): (r: Option<MemberConfig>)
    ensures r.Some? <==> exists m :: m in s && m.name == name
    ensures r.Some? ==> r.value in s && r.value.name == name
  {
    if s == [] then None
    else if s[0].name == name then Some(s[0])
    else FirstNamed(s[1..], name)
  }

  lemma {:induction false} FirstNamedAppend(s: seq<MemberConfig>, m: MemberConfig, name: string)
    ensures FirstNamed(s + [m], name) ==
      if FirstNamed(s, name).Some? then FirstNamed(s, name) else if m.name == name then Some(m) else None
  {
    if s != [] {
      assert (s + [m])[1..] == s[1..] + [m];
      FirstNamedAppend(s[1..], m, name);
    } else {
      assert (s + [m])[1..] == [];
    }
  }

  ghost predicate DistinctNames(members: seq<MemberConfig>)
  {
    forall i, j :: 0 <= i < j < |members| ==> members[i].name != members[j].name
  }

  ghost predicate Distinct(names: seq<string>)
  {
    forall i, j :: 0 <= i < j < |names| ==> names[i] != names[j]
  }

  /**
   * What `findTeam` returns, `order` being the matching teams' names in the
   * order the map iteration met them: nothing for no match, the one team as
   * configured, or else the merged team: one member per name, the first
   * configured under that name, with the names joined into its label.
   */
  ghost predicate IsFindTeamResult(cfg: Config, labels: seq<string>, members: seq<MemberConfig>, name: string, order: seq<string>)
  {
    Distinct(order) &&
    (forall n :: n in order <==> n in cfg.teams && Matches(cfg.teams[n], labels)) &&
    (|order| == 0 ==> members == [] && name == "") &&
    (|order| == 1 ==> members == cfg.teams[order[0]].members && name == order[0]) &&
    (|order| >= 2 ==>
      name == "Merged (" + Join(order, ", ") + ")" &&
      DistinctNames(members) &&
      var all := AllMembers(TeamsNamed(cfg, order));
      (forall m :: m in members ==> FirstNamed(all, m.name) == Some(m)) &&
      (forall x :: x in all ==> exists m :: m in members && m.name == x.name))
  }

  /** The set of the labels, `labelMap` in `findTeam`. */
  method LabelSet(labels: seq<string>) returns (labelSet: set<string>)
    ensures forall l :: l in labelSet <==> l in labels
  {
    labelSet := {};
    for i := 0 to |labels|
      invariant forall l :: l in labelSet <==> l in labels[..i]
    {
      labelSet := labelSet + {labels[i]};
    }
    assert labels[..|labels|] == labels;
  }

  /** The first loop of `findTeam`: the matching teams and their names, in map iteration order. */
  method MatchingTeams(cfg: Config, labels: seq<string>) returns (matchedTeams: seq<TeamConfig>, teamNames: seq<string>)
    ensures Distinct(teamNames)
    ensures forall n :: n in teamNames <==> n in cfg.teams && Matches(cfg.teams[n], labels)
    ensures matchedTeams == TeamsNamed(cfg, teamNames)
  {
    var labelSet := LabelSet(labels);
    matchedTeams, teamNames := [], [];
    var rest := cfg.teams.Keys;
    while rest != {}
      invariant rest <= cfg.teams.Keys
      invariant |matchedTeams| == |teamNames|
      invariant forall i :: 0 <= i < |teamNames| ==>
        teamNames[i] in cfg.teams && teamNames[i] !in rest && matchedTeams[i] == cfg.teams[teamNames[i]]
      invariant Distinct(teamNames)
      invariant forall n :: n in teamNames <==> n in cfg.teams && n !in rest && Matches(cfg.teams[n], labels)
      decreases rest
    {
      var name := Pick(rest);
      rest := rest - {name};
      var t := cfg.teams[name];
      if !AnyRequiredLabel(t.requireLabel, labelSet) {
        continue;
      }
      matchedTeams := matchedTeams + [t];
      teamNames := teamNames + [name];
    }
  }

  /** `memberMap` of `findTeam`: every member name of the teams, to its first member. */
  method MergeMembers(teams: seq<TeamConfig>) returns (memberMap: map<string, MemberConfig>)
    ensures forall n :: FirstNamed(AllMembers(teams), n) == if n in memberMap then Some(memberMap[n]) else None
  {
    memberMap := map[];
    ghost var seen: seq<MemberConfig> := [];
    for t := 0 to |teams|
      invariant seen == AllMembers(teams[..t])
      invariant forall n :: FirstNamed(seen, n) == if n in memberMap then Some(memberMap[n]) else None
    {
      var members := teams[t].members;
      assert teams[..t + 1][..t] == teams[..t];
      for j := 0 to |members|
        invariant seen == AllMembers(teams[..t]) + members[..j]
        invariant forall n :: FirstNamed(seen, n) == if n in memberMap then Some(memberMap[n]) else None
      {
        var m := members[j];
        forall n ensures FirstNamed(seen + [m], n) ==
          if n in memberMap || n == m.name then Some(if n in memberMap then memberMap[n] else m) else None
        {
          FirstNamedAppend(seen, m, n);
        }
        if m.name !in memberMap {
          memberMap := memberMap[m.name := m];
        }
        seen := seen + [m];
        assert members[..j + 1] == members[..j] + [m];
      }
      assert members[..|members|] == members;
    }
    assert teams[..|teams|] == teams;
  }

  /** The second loop of the merge: the map's values, in map iteration order. */
  method Values(memberMap: map<string, MemberConfig>) returns (members: seq<MemberConfig>, ghost keys: seq<string>)
    ensures |keys| == |members| && Distinct(keys)
    ensures forall n :: n in keys <==> n in memberMap
    ensures forall i :: 0 <= i < |keys| ==> members[i] == memberMap[keys[i]]
    ensures forall n :: n in memberMap ==> memberMap[n] in members
    ensures forall m :: m in members ==> exists n :: n in memberMap && memberMap[n] == m
  {
    members, keys := [], [];
    var rest := memberMap.Keys;
    while rest != {}
      invariant rest <= memberMap.Keys
      invariant |keys| == |members| && Distinct(keys)
      invariant forall n :: n in keys <==> n in memberMap && n !in rest
      invariant forall i :: 0 <= i < |keys| ==> members[i] == memberMap[keys[i]]
      decreases rest
    {
      var n := Pick(rest);
      rest := rest - {n};
      members := members + [memberMap[n]];
      keys := keys + [n];
    }
    forall n | n in memberMap ensures memberMap[n] in members {
      var i :| 0 <= i < |keys| && keys[i] == n;
      assert members[i] == memberMap[n];
    }
    forall m | m in members ensures exists n :: n in memberMap && memberMap[n] == m {
      var i :| 0 <= i < |members| && members[i] == m;
      assert keys[i] in memberMap;
    }
  }

  /** `findTeam`. */
  method FindTeam(cfg: Config, labels: seq<string>) returns (members: seq<MemberConfig>, name: string, ghost order: seq<string>)
    ensures IsFindTeamResult(cfg, labels, members, name, order)
    ensures (forall n :: n in cfg.teams ==> !Matches(cfg.teams[n], labels)) ==> members == [] && name == ""
    ensures forall m :: m in members ==> exists n :: n in cfg.teams && Matches(cfg.teams[n], labels) && m in cfg.teams[n].members
  {
    var matchedTeams, teamNames := MatchingTeams(cfg, labels);
    order := teamNames;
    if |matchedTeams| == 0 {
      return [], "", order;
    }
    assert teamNames[0] in teamNames;
    if |matchedTeams| == 1 {
      return matchedTeams[0].members, teamNames[0], order;
    }
    var memberMap := MergeMembers(matchedTeams);
    ghost var keys;
    members, keys := Values(memberMap);
    name := "Merged (" + Join(teamNames, ", ") + ")";
    MergedTeam(AllMembers(matchedTeams), memberMap, members, keys);
    forall m | m in members
      ensures exists n :: n in cfg.teams && Matches(cfg.teams[n], labels) && m in cfg.teams[n].members
    {
      InAllMembers(matchedTeams, m);
      var i :| 0 <= i < |matchedTeams| && m in matchedTeams[i].members;
      assert teamNames[i] in teamNames;
    }
  }

  /** A member of the teams' members belongs to one of the teams. */
  lemma {:induction false} InAllMembers(teams: seq<TeamConfig>, m: MemberConfig)
    requires m in AllMembers(teams)
    ensures exists i :: 0 <= i < |teams| && m in teams[i].members
    decreases |teams|
  {
    var init := teams[..|teams| - 1];
    if m !in teams[|teams| - 1].members {
      InAllMembers(init, m);
      var i :| 0 <= i < |init| && m in init[i].members;
      assert teams[i] == init[i];
    }
  }

  lemma MergedTeam(all: seq<MemberConfig>, memberMap: map<string, MemberConfig>, members: seq<MemberConfig>, keys: seq<string>)
    requires forall n :: FirstNamed(all, n) == if n in memberMap then Some(memberMap[n]) else None
    requires |keys| == |members| && Distinct(keys)
    requires forall n :: n in keys <==> n in memberMap
    requires forall i :: 0 <= i < |keys| ==> members[i] == memberMap[keys[i]]
    ensures DistinctNames(members)
    ensures forall m :: m in members ==> FirstNamed(all, m.name) == Some(m)
    ensures forall x :: x in all ==> exists m :: m in members && m.name == x.name
  {
    forall i | 0 <= i < |keys|
      ensures members[i].name == keys[i] && FirstNamed(all, members[i].name) == Some(members[i])
    {
      assert FirstNamed(all, keys[i]) == Some(memberMap[keys[i]]);
    }
    forall x | x in all ensures exists m :: m in members && m.name == x.name
    {
      assert FirstNamed(all, x.name).Some?;
      var i :| 0 <= i < |keys| && keys[i] == x.name;
      assert members[i] in members;
    }
  }

  // ---------------------------------------------------------------------------
  // isTeamMemberAssigned

  /** Some assignee's login equals the member's name, ignoring case. */
  function AssignedAmong(m: MemberConfig, assignees: seq<User>): (r: bool)
    ensures r <==> exists j :: 0 <= j < |assignees| && Lower(assignees[j].GetLogin()) == Lower(m.name)
  {
    if assignees == [] then false
    else if Lower(assignees[0].GetLogin()) == Lower(m.name) then true
    else
      var r := AssignedAmong(m, assignees[1..]);
      assert r ==> exists j :: 1 <= j < |assignees| && Lower(assignees[j].GetLogin()) == Lower(m.name);
      r
  }

  /** Member `i` is the first of the team found among the assignees. */
  predicate FirstAssigned(team: seq<MemberConfig>, assignees: seq<User>, i: int)
  {
    0 <= i < |team| && AssignedAmong(team[i], assignees) && forall k :: 0 <= k < i ==> !AssignedAmong(team[k], assignees)
  }

  /**
   * `isTeamMemberAssigned`: whether some member is among the assignees,
   * ignoring case, and the configured name of the first such member.
   */
  function IsTeamMemberAssigned(team: seq<MemberConfig>, assignees: seq<User>): (r: (bool, string))
    ensures r.0 <==> exists i :: 0 <= i < |team| && AssignedAmong(team[i], assignees)
    ensures r.0 ==> exists i :: FirstAssigned(team, assignees, i) && r.1 == team[i].name
    ensures !r.0 ==> r.1 == ""
  {
    if team == [] then (false, "")
    else if AssignedAmong(team[0], assignees) then (true, team[0].name)
    else
      var r := IsTeamMemberAssigned(team[1..], assignees);
      assert r.0 ==> exists i :: FirstAssigned(team, assignees, i) && r.1 == team[i].name by {
        if r.0 {
          var i :| FirstAssigned(team[1..], assignees, i) && r.1 == team[1..][i].name;
          assert forall k :: 1 <= k < i + 1 ==> team[k] == team[1..][k - 1];
          assert FirstAssigned(team, assignees, i + 1);
        }
      }
      r
  }

  // ---------------------------------------------------------------------------
  // checkAvailability

  /** The outcome of an availability check: the verdict and whether an error came with it. */
  datatype Availability = Availability(available: bool, failed: bool)

  /** The Google Calendar check: (service account key, calendar, member name, limit). */
  type GoogleCheck = (string, string, string, int) -> Availability

  /** The iCal feed check, `calendar.CheckAvailability`: (feed URL, member name, limit). */
  type IcalCheck = (string, string, int) -> Availability

  /**
   * `checkAvailability`: a member with a Google calendar is checked there,
   * which without the service account key is an error that leaves the member
   * available; any other member is checked on the iCal feed.
   */
  function CheckAvailability(m: MemberConfig, limit: int, gcalKey: string, google: GoogleCheck, ical: IcalCheck): (r: Availability)
    ensures m.googleCalendar != "" && gcalKey == "" ==> r.available && r.failed
    ensures m.googleCalendar != "" && gcalKey != "" ==> r == google(gcalKey, m.googleCalendar, m.name, limit)
    ensures m.googleCalendar == "" ==> r == ical(m.icalURL, m.name, limit)
  {
    if m.googleCalendar != "" then
      if gcalKey == "" then Availability(true, true)
      else google(gcalKey, m.googleCalendar, m.name, limit)
    else ical(m.icalURL, m.name, limit)
  }

  /** `checkAvailability` with the configured limit and the sources fixed. */
  function AvailabilityCheck(limit: int, gcalKey: string, google: GoogleCheck, ical: IcalCheck): MemberConfig -> Availability
  {
    m => CheckAvailability(m, limit, gcalKey, google, ical)
  }

  // ---------------------------------------------------------------------------
  // The availability scan over the busyness report

  /** The lookup of a report name in the team: the first member of that name, or the zero member. */
  function FindMember(team: seq<MemberConfig>, name: string): (m: MemberConfig)
    ensures m == NoMember || (m in team && m.name == name)
  {
    if team == [] then NoMember
    else if team[0].name == name then team[0]
    else FindMember(team[1..], name)
  }

  /** The lookup yields the zero member when no member has the name, else the first member that has it. */
  lemma {:induction false} FindMemberFirst(team: seq<MemberConfig>, name: string)
    ensures (forall k :: 0 <= k < |team| ==> team[k].name != name) ==> FindMember(team, name) == NoMember
    ensures (exists k :: 0 <= k < |team| && team[k].name == name) ==>
      exists i :: FirstNamedAt(team, name, i) && team[i] == FindMember(team, name)
  {
    if team != [] && team[0].name != name {
      FindMemberFirst(team[1..], name);
      assert forall k :: 1 <= k < |team| ==> team[k] == team[1..][k - 1];
      if exists k :: 0 <= k < |team| && team[k].name == name {
        var k :| 0 <= k < |team| && team[k].name == name;
        assert team[1..][k - 1].name == name;
        var i :| FirstNamedAt(team[1..], name, i) && team[1..][i] == FindMember(team, name);
        assert FirstNamedAt(team, name, i + 1);
      }
    } else if team != [] {
      assert FirstNamedAt(team, name, 0);
    }
  }

  /** Member `i` is the first of the team with the name. */
  predicate FirstNamedAt(team: seq<MemberConfig>, name: string, i: int)
  {
    0 <= i < |team| && team[i].name == name && forall k :: 0 <= k < i ==> team[k].name != name
  }

  /** A looked-up member with a name is a member of the team. */
  lemma {:induction false} FoundMemberInTeam(team: seq<MemberConfig>, name: string)
    ensures FindMember(team, name).name != "" ==> FindMember(team, name) in team && FindMember(team, name).name == name
  {
    if team != [] && team[0].name != name {
      FoundMemberInTeam(team[1..], name);
    }
  }

  /** The member lookup loop inside `Run`'s scan. */
  method LookupMember(team: seq<MemberConfig>, name: string) returns (member: MemberConfig)
    ensures member == FindMember(team, name)
  {
    member := NoMember;
    for i := 0 to |team|
      invariant FindMember(team, name) == FindMember(team[i..], name)
    {
      if team[i].name == name {
        member := team[i];
        break;
      }
      assert team[i..][1..] == team[i + 1..];
    }
  }

  /** The members of one busyness level that are in the team and whose check says available, in level order. */
  function LevelCandidates(users: seq<string>, team: seq<MemberConfig>, check: MemberConfig -> Availability): (r: seq<MemberConfig>)
    ensures |r| <= |users|
    ensures forall m :: m in r ==> m in team && m.name != "" && check(m).available
    decreases |users|
  {
    if users == [] then []
    else
      var m := FindMember(team, users[|users| - 1]);
      var rest := LevelCandidates(users[..|users| - 1], team, check);
      if m.name != "" && check(m).available then rest + [m] else rest
  }

  /**
   * A member is a candidate of a level exactly when some name of the level
   * looks it up in the team and its check says available, whether or not the
   * check also reported an error.
   */
  lemma {:induction false} LevelCandidatesIff(users: seq<string>, team: seq<MemberConfig>, check: MemberConfig -> Availability, m: MemberConfig)
    ensures m in LevelCandidates(users, team, check) <==>
      exists k :: 0 <= k < |users| && m == FindMember(team, users[k]) && m.name != "" && check(m).available
    decreases |users|
  {
    if users != [] {
      var last := |users| - 1;
      var init := users[..last];
      LevelCandidatesIff(init, team, check, m);
      if m in LevelCandidates(users, team, check) {
        if m in LevelCandidates(init, team, check) {
          var k :| 0 <= k < |init| && m == FindMember(team, init[k]) && m.name != "" && check(m).available;
          assert init[k] == users[k];
        }
      }
      if exists k :: 0 <= k < |users| && m == FindMember(team, users[k]) && m.name != "" && check(m).available {
        var k :| 0 <= k < |users| && m == FindMember(team, users[k]) && m.name != "" && check(m).available;
        if k < last {
          assert init[k] == users[k];
        }
      }
    }
  }

  /** The available members of the first level that has any; empty when no level has. */
  function Scan(report: Busyness.Report, team: seq<MemberConfig>, check: MemberConfig -> Availability): (r: seq<MemberConfig>)
    ensures forall m :: m in r ==> m in team && check(m).available
  {
    if report == [] then []
    else
      var c := LevelCandidates(report[0].users, team, check);
      if c != [] then c else Scan(report[1..], team, check)
  }

  /** The inner loop of the scan: the available members of one level, appended in level order. */
  method LevelAvailable(users: seq<string>, team: seq<MemberConfig>, check: MemberConfig -> Availability)
    returns (availableMembers: seq<MemberConfig>)
    ensures availableMembers == LevelCandidates(users, team, check)
  {
    availableMembers := [];
    for k := 0 to |users|
      invariant availableMembers == LevelCandidates(users[..k], team, check)
    {
      var member := LookupMember(team, users[k]);
      assert users[..k + 1][..k] == users[..k];
      if member.name == "" {
        continue;
      }
      var a := check(member);
      if a.available {
        availableMembers := availableMembers + [member];
      }
    }
    assert users[..|users|] == users;
  }

  /** The scan of `Run` over the report, level by level, stopping after the first level with an available member. */
  method AvailableMembers(report: Busyness.Report, team: seq<MemberConfig>, check: MemberConfig -> Availability)
    returns (availableMembers: seq<MemberConfig>)
    ensures availableMembers == Scan(report, team, check)
  {
    availableMembers := [];
    var i := 0;
    while i < |report|
      invariant 0 <= i <= |report|
      invariant availableMembers == [] && Scan(report, team, check) == Scan(report[i..], team, check)
    {
      availableMembers := LevelAvailable(report[i].users, team, check);
      if |availableMembers| > 0 {
        break;
      }
      assert report[i..][1..] == report[i + 1..];
      i := i + 1;
    }
  }

  /** Level `k` is the first whose candidates are not empty. */
  ghost predicate FirstAvailableLevel(report: Busyness.Report, team: seq<MemberConfig>, check: MemberConfig -> Availability, k: int)
  {
    0 <= k < |report| && LevelCandidates(report[k].users, team, check) != [] &&
    forall j :: 0 <= j < k ==> LevelCandidates(report[j].users, team, check) == []
  }

  /**
   * The scan takes all its members from one level: the first at which some
   * member's check says available. Levels before it have none.
   */
  lemma {:induction false} ScanFromFirstAvailableLevel(report: Busyness.Report, team: seq<MemberConfig>, check: MemberConfig -> Availability)
    ensures Scan(report, team, check) == [] <==> forall k :: 0 <= k < |report| ==> LevelCandidates(report[k].users, team, check) == []
    ensures Scan(report, team, check) != [] ==>
      exists k :: FirstAvailableLevel(report, team, check, k) && Scan(report, team, check) == LevelCandidates(report[k].users, team, check)
  {
    if report != [] {
      ScanFromFirstAvailableLevel(report[1..], team, check);
      assert forall k :: 1 <= k < |report| ==> report[k] == report[1..][k - 1];
      if LevelCandidates(report[0].users, team, check) == [] && Scan(report, team, check) != [] {
        var k :| FirstAvailableLevel(report[1..], team, check, k) &&
          Scan(report[1..], team, check) == LevelCandidates(report[1..][k].users, team, check);
        forall j | 0 <= j < k + 1 ensures LevelCandidates(report[j].users, team, check) == [] {
          if j > 0 { assert report[j] == report[1..][j - 1]; }
        }
        assert FirstAvailableLevel(report, team, check, k + 1);
      }
    }
  }

  /** Once a level yields available members, the levels after it are never consulted. */
  lemma {:induction false} LaterLevelsIgnored(r1: Busyness.Report, r2: Busyness.Report, team: seq<MemberConfig>, check: MemberConfig -> Availability)
    requires Scan(r1, team, check) != []
    ensures Scan(r1 + r2, team, check) == Scan(r1, team, check)
  {
    assert (r1 + r2)[0] == r1[0];
    if LevelCandidates(r1[0].users, team, check) == [] {
      assert (r1 + r2)[1..] == r1[1..] + r2;
      LaterLevelsIgnored(r1[1..], r2, team, check);
    }
  }

  /** Every member the scan yields is a team member whose check says available, even if it also failed. */
  lemma {:induction false} ScannedMembersAvailable(report: Busyness.Report, team: seq<MemberConfig>, check: MemberConfig -> Availability, m: MemberConfig)
    requires m in Scan(report, team, check)
    ensures m in team && m.name != "" && check(m).available
    ensures exists k :: 0 <= k < |report| && m.name in report[k].users
  {
    if LevelCandidates(report[0].users, team, check) != [] {
      LevelCandidatesIff(report[0].users, team, check, m);
      var k :| 0 <= k < |report[0].users| && m == FindMember(team, report[0].users[k]) && m.name != "" && check(m).available;
      assert report[0].users[k] in report[0].users;
      FoundMemberInTeam(team, report[0].users[k]);
      assert m.name in report[0].users;
    } else {
      ScannedMembersAvailable(report[1..], team, check, m);
      var k :| 0 <= k < |report| - 1 && m.name in report[1..][k].users;
      assert report[1..][k] == report[k + 1];
    }
  }

  // ---------------------------------------------------------------------------
  // Run

  /** The listing call of the busyness client: (since, assignee, amount). */
  type ListFn = (int, string, nat) -> Option<seq<Issue>>

  /**
   * `calculateIssueBusynessPerTeamMember`: the busyness report of the team
   * since a week before `now`; `None` when the busyness client cannot be
   * created (the repository is unknown, `list` is `None`).
   */
  method CalculateIssueBusynessPerTeamMember(now: int, list: Option<ListFn>, ignoredLabels: seq<string>, members: seq<MemberConfig>)
    returns (report: Option<Busyness.Report>)
    ensures report.None? <==> list.None?
    ensures report.Some? ==> Busyness.IsReportOf(report.value, Names(members),
      BusynessOf(Busyness.NewGithubBusynessClient(ignoredLabels, list.value)), now - Busyness.Lookback)
  {
    var team := new string[|members|];
    for i := 0 to |members|
      invariant forall k :: 0 <= k < i ==> team[k] == members[k].name
    {
      team[i] := members[i].name;
    }
    assert team[..] == Names(members);
    if list.None? {
      return None;
    }
    var client := Busyness.NewGithubBusynessClient(ignoredLabels, list.value);
    var r := Busyness.CalculateBusynessForTeam(now, BusynessOf(client), team[..]);
    return Some(r);
  }

  function BusynessOf(client: Busyness.GithubBusynessClient): Busyness.BusynessFn
  {
    (since, member) => client.Busyness(since, member)
  }

  /** The add-assignee request: owner, repository, issue number and the logins to add. */
  datatype AssignCall = AssignCall(owner: string, repo: string, number: int, assignees: seq<string>)

  /** An issues event: the issue and the repository it belongs to. */
  datatype IssuesEvent = IssuesEvent(issue: Issue, repo: Option<Repository>)

  /**
   * How a run ends. `Chosen` sets the `assignee` output and carries the
   * add-assignee request unless it is a dry run; `AssignFailed` sets the
   * output and returns the request's error; `Aborted` sets the output and
   * then stops the process because the repository, its owner or the issue
   * number is missing from the event.
   */
  datatype Outcome =
    | Ignored
    | NoTeam
    | AlreadyAssigned(member: string)
    | BusynessFailed
    | Chosen(output: string, call: Option<AssignCall>)
    | AssignFailed(output: string, request: AssignCall)
    | Aborted(output: string)
  {
    predicate SetsOutput() { Chosen? || AssignFailed? || Aborted? }
  }

  /** `AddAssignees` as an oracle: whether the request succeeds. */
  type Assigner = AssignCall -> bool

  /** The event lacks the repository, its name, its owner, the owner's login or the issue number. */
  predicate MissingTarget(event: IssuesEvent)
  {
    event.repo.None? || event.repo.value.name.None? || event.repo.value.owner.None? ||
    event.repo.value.owner.value.login.None? || event.issue.number.None?
  }

  /** The add-assignee request for `login` on the event's repository and issue. */
  function RequestFor(event: IssuesEvent, login: string): AssignCall
    requires !MissingTarget(event)
  {
    AssignCall(event.repo.value.owner.value.login.value, event.repo.value.name.value, event.issue.number.value, [login])
  }

  /** The labels a run works with: the comma-separated override when given, else the issue's label names. */
  ghost predicate IsRunLabels(labels: seq<string>, event: IssuesEvent, labelsInput: string)
    requires forall i :: 0 <= i < |event.issue.labels| ==> event.issue.labels[i].name.Some?
  {
    if labelsInput != "" then labels == Split(labelsInput, ',')
    else |labels| == |event.issue.labels| && forall i :: 0 <= i < |labels| ==> labels[i] == event.issue.labels[i].name.value
  }

  /** The members a run chooses from: the scan's members, or the whole team when the scan found none. */
  function Candidates(available: seq<MemberConfig>, team: seq<MemberConfig>): seq<MemberConfig>
  {
    if available == [] then team else available
  }

  /**
   * `Action.Run` with its oracles as parameters: `now` for the clock, `list`
   * for the busyness client's issue listing, `gcalKey`, `google` and `ical`
   * for the calendar checks, `intn` for `rand.Intn` and `addAssignees` for
   * the assignment request.
   */
  method Run(cfg: Config, event: IssuesEvent, labelsInput: string, dryRun: bool,
             now: int, list: Option<ListFn>, gcalKey: string, google: GoogleCheck, ical: IcalCheck, intn: nat -> nat,
             addAssignees: Assigner)
    returns (outcome: Outcome, ghost labels: seq<string>, ghost team: seq<MemberConfig>, ghost teamName: string,
             ghost order: seq<string>, ghost report: Busyness.Report, ghost chosen: MemberConfig)
    requires forall i :: 0 <= i < |event.issue.labels| ==> event.issue.labels[i].name.Some?
    requires forall n: nat :: 0 < n ==> intn(n) < n
    ensures IsRunLabels(labels, event, labelsInput)
    ensures outcome.Ignored? <==> exists l :: l in cfg.ignoredLabels && l in labels
    ensures !outcome.Ignored? ==> IsFindTeamResult(cfg, labels, team, teamName, order)
    ensures outcome.NoTeam? <==> !outcome.Ignored? && team == []
    ensures outcome.AlreadyAssigned? <==>
      !outcome.Ignored? && team != [] && IsTeamMemberAssigned(team, event.issue.assignees).0
    ensures outcome.AlreadyAssigned? ==> outcome.member == IsTeamMemberAssigned(team, event.issue.assignees).1
    ensures outcome.BusynessFailed? <==>
      !outcome.Ignored? && team != [] && !IsTeamMemberAssigned(team, event.issue.assignees).0 && list.None?
    ensures outcome.SetsOutput() ==>
      team != [] && list.Some? &&
      Busyness.IsReportOf(report, Names(team), BusynessOf(Busyness.NewGithubBusynessClient(cfg.ignoredLabels, list.value)), now - Busyness.Lookback) &&
      var candidates := Candidates(Scan(report, team, AvailabilityCheck(cfg.unavailabilityLimit, gcalKey, google, ical)), team);
      chosen == candidates[intn(|candidates|)] &&
      outcome.output == (if chosen.output != "" then chosen.output else chosen.name)
    ensures outcome.SetsOutput() && dryRun ==> outcome.Chosen? && outcome.call.None?
    ensures outcome.SetsOutput() && !dryRun ==> (outcome.Aborted? <==> MissingTarget(event))
    ensures outcome.SetsOutput() && !dryRun && !MissingTarget(event) ==>
      var request := RequestFor(event, chosen.name);
      if addAssignees(request) then outcome.Chosen? && outcome.call == Some(request)
      else outcome.AssignFailed? && outcome.request == request
  {
    var issueLabels := ConvertLabels(event.issue.labels);
    if labelsInput != "" {
      issueLabels := Split(labelsInput, ',');
    }
    labels := issueLabels;
    team, teamName, order, report, chosen := [], "", [], [], NoMember;

    var ignored := HasIgnoredLabel(cfg.ignoredLabels, issueLabels);
    if ignored {
      return Ignored, labels, team, teamName, order, report, chosen;
    }

    var teamMembers, name;
    teamMembers, name, order := FindTeam(cfg, issueLabels);
    team, teamName := teamMembers, name;
    if |teamMembers| == 0 {
      return NoTeam, labels, team, teamName, order, report, chosen;
    }

    var alreadyAssigned := IsTeamMemberAssigned(teamMembers, event.issue.assignees);
    if alreadyAssigned.0 {
      return AlreadyAssigned(alreadyAssigned.1), labels, team, teamName, order, report, chosen;
    }

    var busynessPerTeamMember := CalculateIssueBusynessPerTeamMember(now, list, cfg.ignoredLabels, teamMembers);
    if busynessPerTeamMember.None? {
      return BusynessFailed, labels, team, teamName, order, report, chosen;
    }
    report := busynessPerTeamMember.value;

    var check := AvailabilityCheck(cfg.unavailabilityLimit, gcalKey, google, ical);
    var availableMembers := AvailableMembers(busynessPerTeamMember.value, teamMembers, check);
    if |availableMembers| == 0 {
      availableMembers := teamMembers;
    }

    var theChosenOne := availableMembers[intn(|availableMembers|)];
    chosen := theChosenOne;
    var output := theChosenOne.name;
    if theChosenOne.output != "" {
      output := theChosenOne.output;
    }

    if dryRun {
      return Chosen(output, None), labels, team, teamName, order, report, chosen;
    }
    if event.repo.None? || event.repo.value.name.None? {
      return Aborted(output), labels, team, teamName, order, report, chosen;
    }
    var repo := event.repo.value;
    if repo.owner.None? || repo.owner.value.login.None? {
      return Aborted(output), labels, team, teamName, order, report, chosen;
    }
    if event.issue.number.None? {
      return Aborted(output), labels, team, teamName, order, report, chosen;
    }
    var call := AssignCall(repo.owner.value.login.value, repo.name.value, event.issue.number.value, [theChosenOne.name]);
    if !addAssignees(call) {
      return AssignFailed(output, call), labels, team, teamName, order, report, chosen;
    }
    return Chosen(output, Some(call)), labels, team, teamName, order, report, chosen;
  }

  /** The member a run chooses is always a member of the responsible team. */
  lemma ChosenFromTeam(report: Busyness.Report, team: seq<MemberConfig>, check: MemberConfig -> Availability, index: nat)
    requires team != []
    requires index < |Candidates(Scan(report, team, check), team)|
    ensures Candidates(Scan(report, team, check), team)[index] in team
  {
    var available := Scan(report, team, check);
    if available != [] {
      ScannedMembersAvailable(report, team, check, available[index]);
    }
  }

  // ---------------------------------------------------------------------------
  // Cases of the package's tests

  const Alice := MemberConfig("Alice", "", "", "")
  const Bob := MemberConfig("Bob", "", "", "")
  const Charlie := MemberConfig("Charlie", "", "", "")

  /** A login matches a member's name ignoring case, and the configured spelling is returned. */
  lemma AssignedIgnoringCase()
    ensures IsTeamMemberAssigned([Alice, Bob, Charlie], [User(Some("bob"))]) == (true, "Bob")
  {
    assert Lower("bob") == "bob" && Lower("Bob") == "bob";
    assert Lower("Alice") == "alice";
    assert !AssignedAmong(Alice, [User(Some("bob"))]);
  }

  /** With several assignees, the one that is a member is found. */
  lemma AssignedAmongSeveral()
    ensures IsTeamMemberAssigned([Alice, Bob, Charlie], [User(Some("Unknown")), User(Some("Charlie"))]) == (true, "Charlie")
  {
    var assignees := [User(Some("Unknown")), User(Some("Charlie"))];
    assert Lower("Unknown") == "unknown" && Lower("Charlie") == "charlie";
    assert Lower("Alice") == "alice" && Lower("Bob") == "bob";
    assert !AssignedAmong(Alice, assignees);
    assert !AssignedAmong(Bob, assignees);
    assert AssignedAmong(Charlie, assignees) by {
      assert Lower(assignees[1].GetLogin()) == Lower(Charlie.name);
    }
    assert [Alice, Bob, Charlie][1..] == [Bob, Charlie];
    assert [Bob, Charlie][1..] == [Charlie];
    assert IsTeamMemberAssigned([Charlie], assignees) == (true, "Charlie");
  }

  /** No assignee, or none that is a member: nobody is assigned. */
  lemma NotAssigned()
    ensures IsTeamMemberAssigned([Alice, Bob, Charlie], [User(Some("Unknown"))]) == (false, "")
    ensures IsTeamMemberAssigned([Alice, Bob, Charlie], []) == (false, "")
  {
    assert Lower("Unknown") == "unknown";
    assert Lower("Alice") == "alice" && Lower("Bob") == "bob" && Lower("Charlie") == "charlie";
  }

  const TeamA := TeamConfig(["A", "B"], [MemberConfig("1", "", "", ""), MemberConfig("2", "", "", "")])
  const TeamC := TeamConfig(["C", "D"], [MemberConfig("3", "", "", ""), MemberConfig("4", "", "", "")])
  const TwoTeams := Config(0, map["0" := TeamA, "1" := TeamC], [])

  /** One matching label selects that team alone, whatever the map order. */
  lemma FindTeamSingleMatch(members: seq<MemberConfig>, name: string, order: seq<string>)
    requires IsFindTeamResult(TwoTeams, ["B"], members, name, order)
    ensures members == TeamA.members && name == "0"
  {
    assert Matches(TeamA, ["B"]) by { assert "B" in TeamA.requireLabel; }
    assert "0" in order;
    assert "1" !in order;
    OnlyElement(order, "0");
  }

  /** No matching label selects no team. */
  lemma FindTeamNoMatch(members: seq<MemberConfig>, name: string, order: seq<string>)
    requires IsFindTeamResult(TwoTeams, ["E"], members, name, order)
    ensures members == [] && name == ""
  {
    assert "0" !in order && "1" !in order;
    if order != [] {
      FirstIn(order);
      assert false;
    }
  }

  lemma FirstIn(s: seq<string>)
    requires s != []
    ensures s[0] in s
  {
  }

  lemma OnlyElement(s: seq<string>, x: string)
    requires Distinct(s)
    requires forall y :: y in s <==> y == x
    ensures s == [x]
  {
    assert x in s;
    FirstTwoDiffer(s);
    assert s[0] in s;
  }

  lemma FirstTwoDiffer(s: seq<string>)
    requires Distinct(s)
    ensures |s| < 2 || (s[0] != s[1] && s[0] in s && s[1] in s)
  {
  }
}
