# issue-team-scheduler decision logic in Dafny

This project models the decision logic of two GitHub-Action issue-triage
bots from grafana/issue-team-scheduler, and proves properties of it.

- **IC assigner** (`pkg/icassigner`). For an issues event it:
  - stops when the issue carries an ignored label;
  - resolves the responsible team from the labels, merging teams when several match;
  - stops when a team member is already assigned (logins compared ignoring case);
  - ranks the team by busyness: open issues and issues closed in the last week, grouped into strictly ascending levels;
  - takes the members of the least busy level that has anyone available in their calendar, or the whole team when nobody is;
  - chooses one at random, emits its output name and requests the assignment.
- **iCal availability rule** (`pkg/icassigner/calendar/ical.go`).
  - An event blocks when it is at least as long as the limit, is not over, and starts within a lookahead. The lookahead depends on the local weekday of `now`.
  - `checkEvents` scans the events and their nearby recurrences.
- **Regex labeler** (`pkg/labeler`).
  - It runs when an issue carries a required label and none of the configured ones.
  - Each configured label is scored by the weights of its rules that match the title or body. The best-scoring label is appended to the issue's labels.
  - The configuration's validation defaults weights to 1 and compiles the expressions in place.

Where the source changes state in place, the model stays imperative:
- loops are `while`/`for` loops with invariants;
- `Config.Validate` works on a class with a map of labels;
- each label's matchers are an `array`, shared between copies of the label value as a Go slice is.

Each such method is proved against a specification function. The properties the source promises are proved as lemmas about those functions.

Inputs from outside the decision logic are parameters:
- the clock (`now`, integer nanoseconds);
- the random index (`intn`, required to lie below its argument);
- the issue listing of the busyness client;
- the Google and iCal calendar checks;
- regex compilation and matching;
- the labeler's label-replacement call.

Go map iteration is an unspecified choice (`MapIteration.Pick`). Where a result depends on the order met, the order is exposed as a ghost out-parameter and the contracts hold for every order.

A `time.Location` is a fixed UTC offset, and weekdays are counted from 1970-01-01, a Thursday. `strings.ToLower` is ASCII folding.

## Model

| member | source | states |
|---|---|---|
| ICAssigner.WithDefaults | pkg/icassigner/config.go:57-60 | an unset (zero) unavailability limit becomes six hours; any other configuration is left as it is |
| ICAssigner.ConvertLabels | pkg/icassigner/action.go:246-253 | one name per label, in order, entry i being label i's name |
| ICAssigner.MemberNames | pkg/icassigner/action.go:155-160 | the members' names, in member order |
| ICAssigner.HasIgnoredLabel | pkg/icassigner/action.go:45-52 | true iff some ignored label is among the issue's labels |
| ICAssigner.AnyRequiredLabel | pkg/icassigner/action.go:202-208 | a team matches iff one of its required labels is in the label set |
| ICAssigner.LabelSet | pkg/icassigner/action.go:194-197 | the label set holds exactly the labels |
| ICAssigner.MatchingTeams | pkg/icassigner/action.go:199-216 | the matched team names are distinct and are exactly the configured teams with a required label among the labels; the matched teams are those names' teams, pairwise in step |
| ICAssigner.FirstNamed | pkg/icassigner/action.go:226-233 | finds a member of the name iff the sequence has one, and what it finds is such a member |
| ICAssigner.FirstNamedAppend | pkg/icassigner/action.go:228-232 | appending a member changes the first member of a name only when the name was absent and the new member has it |
| ICAssigner.MergeMembers | pkg/icassigner/action.go:226-233 | the member map sends each name to the first member of that name across the matched teams, team after team, and holds no other name |
| ICAssigner.Values | pkg/icassigner/action.go:235-238 | one member per map key, each key met once, in some iteration order; the members are exactly the map's values |
| ICAssigner.MergedTeam | pkg/icassigner/action.go:223-241 | merged members have pairwise distinct names; each is the first configured member of its name; every member of a matched team has its name among them |
| ICAssigner.FindTeam | pkg/icassigner/action.go:193-243 | for any map order: (nil, "") with no match; the team's members unchanged and its name with one match; with several, the merged members and "Merged (" + names joined by ", " + ")"; every returned member belongs to a matching team |
| ICAssigner.InAllMembers | pkg/icassigner/action.go:227-233 | a member gathered from the matched teams belongs to one of them |
| ICAssigner.AssignedAmong | pkg/icassigner/action.go:257-261 | true iff some assignee's login equals the member's name after lowercasing both |
| ICAssigner.IsTeamMemberAssigned | pkg/icassigner/action.go:255-265 | true iff some member is among the assignees ignoring case; the name is the configured spelling of the first such member in team order; "" when false |
| ICAssigner.CheckAvailability | pkg/icassigner/action.go:171-190 | a member with a Google calendar is checked there, and without the service key is available with an error; any other member is checked on the iCal feed |
| ICAssigner.FindMember | pkg/icassigner/action.go:86-92 | the member looked up for a report name is the zero member or a team member of that name |
| ICAssigner.FindMemberFirst | pkg/icassigner/action.go:86-92 | the lookup of a report name yields the zero member when no team member has it, else the first team member that has it |
| ICAssigner.FoundMemberInTeam | pkg/icassigner/action.go:86-96 | a looked-up member with a non-empty name is a team member of that name |
| ICAssigner.LookupMember | pkg/icassigner/action.go:86-92 | the lookup loop with `break` computes the first-named lookup |
| ICAssigner.LevelCandidates | pkg/icassigner/action.go:84-108 | a level yields at most as many members as it has names, each a named team member whose check says available |
| ICAssigner.LevelCandidatesIff | pkg/icassigner/action.go:84-107 | a member is collected from a level iff some name of the level looks it up, its name is non-empty and its check says available (an error beside it does not matter) |
| ICAssigner.LevelAvailable | pkg/icassigner/action.go:84-108 | the inner loop appends exactly the level's candidates, in level order |
| ICAssigner.AvailableMembers | pkg/icassigner/action.go:82-114 | the scan stops after the first level with an available member and yields that level's candidates |
| ICAssigner.Scan | pkg/icassigner/action.go:82-114 | every member the scan yields is a team member whose check says available |
| ICAssigner.ScanFromFirstAvailableLevel | pkg/icassigner/action.go:82-114 | the scan is empty iff no level has a candidate; otherwise it is the candidates of the lowest level that has any, and the levels before it have none |
| ICAssigner.LaterLevelsIgnored | pkg/icassigner/action.go:110-113 | once a level yields members, appending further levels to the report leaves the result unchanged |
| ICAssigner.ScannedMembersAvailable | pkg/icassigner/action.go:94-104 | every scanned member is a named team member whose check says available and whose name stands in some level |
| ICAssigner.CalculateIssueBusynessPerTeamMember | pkg/icassigner/action.go:162-169 | with a client, the report is the busyness report of the team's names since `now` minus a week; without one, an error |
| ICAssigner.Run | pkg/icassigner/action.go:39-153 | the labels are the comma split of the override or the issue's names; ignored iff an ignored label is among them; then no team, already assigned, or busyness failure in that order; otherwise the chosen member is the random index into the scan's members, or into the whole team when there are none; the output is its `Output` or else its name; a dry run ends `Chosen` with no request; otherwise the run aborts iff the repository, its name, its owner, the owner's login or the issue number is missing, and else sends the request assigning the chosen `Name` on the event's repository and issue, ending `Chosen` with it iff the request succeeds and `AssignFailed` otherwise |
| ICAssigner.ChosenFromTeam | pkg/icassigner/action.go:116-126 | for a non-empty team, every in-range index into the candidates picks a team member |
| ICAssigner.AssignedIgnoringCase | pkg/icassigner/action_test.go:127-133 | login "bob" finds member "Bob" and returns the configured spelling |
| ICAssigner.AssignedAmongSeveral | pkg/icassigner/action_test.go:141-147 | among "Unknown" and "Charlie", member "Charlie" is found |
| ICAssigner.NotAssigned | pkg/icassigner/action_test.go:113-140 | no assignees, or no matching one, gives (false, "") |
| ICAssigner.FindTeamSingleMatch | pkg/icassigner/action_test.go:27-56 | label "B" selects the team requiring "A" or "B", with its members and key, whatever the map order |
| ICAssigner.FindTeamNoMatch | pkg/icassigner/action_test.go:57-61 | label "E" selects no team |
| Busyness.InWithBusyness | pkg/icassigner/busyness/busyness.go:71-87 | a member is in the level of busyness b iff it is a member whose busyness is b |
| Busyness.EveryMemberInOneLevel | pkg/icassigner/busyness/busyness.go:83-93 | in a report, every member stands in exactly one level |
| Busyness.LevelUsersAreMembers | pkg/icassigner/busyness/busyness.go:83-93 | every user of a level is a member with that level's busyness |
| Busyness.AscendingUnique | pkg/icassigner/busyness/busyness.go:95-98 | two strictly ascending sequences of the same levels are equal |
| Busyness.LevelShared | pkg/icassigner/busyness/busyness.go:89-93 | a level of one report of the members is a level of every other report of them |
| Busyness.ReportUnique | pkg/icassigner/busyness/busyness.go:89-98 | the report does not depend on the order the level map is visited in |
| Busyness.Swap | pkg/icassigner/busyness/busyness.go:96-98 | exchanges two levels, keeping the multiset and distinct busyness values |
| Busyness.SiftDown | pkg/icassigner/busyness/busyness.go:96-98 | one insertion step extends the strictly ascending prefix by one level, as a permutation |
| Busyness.SortByBusyness | pkg/icassigner/busyness/busyness.go:95-98 | the levels end strictly ascending by busyness and are a permutation of the input |
| Busyness.GroupByBusyness | pkg/icassigner/busyness/busyness.go:71-87 | `addMember` over the members maps each busyness some member has to the non-empty list of those members in member order, and every member's busyness is a key |
| Busyness.LevelsOf | pkg/icassigner/busyness/busyness.go:89-93 | one level per map key, with that key's members, and distinct busyness values |
| Busyness.SortedLevelsFormReport | pkg/icassigner/busyness/busyness.go:89-98 | the sorted levels are a report of the members: ascending, non-empty, order-keeping and covering every member |
| Busyness.CalculateBusynessForTeam | pkg/icassigner/busyness/busyness.go:68-101 | the result is the busyness report of the members since exactly `now - 7*24h` |
| Busyness.NewGithubBusynessClient | pkg/icassigner/busyness/busyness.go:111-115 | the ignore set holds exactly the ignorable labels |
| Busyness.ContainsLabelsToIgnore | pkg/icassigner/busyness/busyness.go:184-192 | true iff some label's name is in the ignore set |
| Busyness.HasLabelToIgnore | pkg/icassigner/busyness/busyness.go:184-192 | an issue can carry an ignored label only when it has labels and some are to be ignored |
| Busyness.GithubBusynessClient.Busyness | pkg/icassigner/busyness/busyness.go:144-182 | a member's busyness is never negative and never exceeds the number of issues listed |
| Busyness.GetBusyness | pkg/icassigner/busyness/busyness.go:144-182 | 0 when the listing fails; otherwise the sum of the issues' weights |
| Busyness.Score | pkg/icassigner/busyness/busyness.go:155-181 | the busyness of a listing never exceeds the number of issues in it |
| Busyness.IssueWeight | pkg/icassigner/busyness/busyness.go:156-178 | one issue adds at most one, and only when it is open or closed |
| Busyness.IssueWeightCases | pkg/icassigner/busyness/busyness.go:156-178 | an open issue counts 1 iff it has no ignored label; a closed one counts 1 iff `since` is strictly before its closing; other states count 0 |
| Busyness.ExampleLevels | pkg/icassigner/busyness/busyness_test.go:47-59 | with busyness 1, 3, 3 the members group as ["IC 1"] and ["IC 2", "IC 3"] |
| Busyness.ExampleExpected | pkg/icassigner/busyness/busyness_test.go:47-59 | the expected levels form a report of the three members |
| Busyness.ExampleReport | pkg/icassigner/busyness/busyness_test.go:47-59 | every report of the case is exactly the expected one |
| Calendar.Weekday | pkg/icassigner/calendar/ical.go:61-63 | the local weekday lies in 0..6 |
| Calendar.TimeOfDay | pkg/icassigner/calendar/ical.go:61 | the local time of day lies within one day |
| Calendar.LookAhead | pkg/icassigner/calendar/ical.go:60-73 | the lookahead lies between 12 and 60 hours, and exceeds 12 hours exactly on Friday, Saturday and Sunday |
| Calendar.IcalChecker.IsEventBlockingAvailability | pkg/icassigner/calendar/ical.go:44-77 | a blocking event lasts at least the limit, is not over, and starts at most 60 hours after `now` |
| Calendar.ShortEventNeverBlocks | pkg/icassigner/calendar/ical.go:45-48 | an event shorter than the limit never blocks |
| Calendar.EndedEventNeverBlocks | pkg/icassigner/calendar/ical.go:50-53 | an event that ended strictly before `now` never blocks |
| Calendar.BlockingIff | pkg/icassigner/calendar/ical.go:55-76 | a long enough event that is not over blocks iff it starts no later than `now` plus the lookahead |
| Calendar.LookAheadTable | pkg/icassigner/calendar/ical.go:60-73 | the lookahead is 60h on Friday, 48h on Saturday, 24h on Sunday and 12h otherwise |
| Calendar.LocationOnlyThroughWeekday | pkg/icassigner/calendar/ical.go:61-76 | two checkers at the same instant whose locations agree on the weekday decide every event alike |
| Calendar.AddDays | pkg/icassigner/calendar/ical.go:61-63 | whole days keep the local time of day and advance the weekday by one each |
| Calendar.WeekendHorizonReachesMonday | pkg/icassigner/calendar/ical.go:64-73 | from Saturday and Sunday the horizon is the same local time on Monday; from Friday it lands on Sunday or Monday |
| Calendar.FridayHorizon | pkg/icassigner/calendar/ical.go:64-66 | 60 hours after a Friday instant is a Sunday or Monday |
| Calendar.Between | pkg/icassigner/calendar/ical.go:123 | the occurrences kept are exactly those within the closed window |
| Calendar.Occurrences | pkg/icassigner/calendar/ical.go:119-123 | the occurrences looked at are exactly those within twice the event's duration of `now` |
| Calendar.EventBlocks | pkg/icassigner/calendar/ical.go:96-131 | an event that blocks, in its own times or a recurrence, is opaque, has parsed times, and lasts at least the limit |
| Calendar.SkippedEventsNeverBlock | pkg/icassigner/calendar/ical.go:97-105 | transparent events and events with unparsable times never block |
| Calendar.OnlyNearbyOccurrencesBlock | pkg/icassigner/calendar/ical.go:113-131 | when its own times do not block, a blocking event has a recurrence occurrence within twice its duration of `now` that blocks with the same duration |
| Calendar.CheckEvents | pkg/icassigner/calendar/ical.go:93-136 | available iff no event blocks, either in its own times or in a nearby recurrence occurrence |
| Calendar.WholeDayPto | pkg/icassigner/calendar/ical_test.go:74-107 | the New York PTO day: not blocking more than 12h ahead, blocking within 12h, not blocking after it ended |
| Calendar.FridayBeforePto | pkg/icassigner/calendar/ical_test.go:110-189 | the Melbourne PTO week: Friday morning does not block, Friday evening does, Monday after the PTO does not |
| Calendar.OpaqueEventMakesUnavailable | pkg/icassigner/calendar/ical_test.go:204-243 | the opaque 9h20m event makes the Los Angeles member unavailable |
| Strings.IndexOfSpec | pkg/labeler/utils.go:47 | the separator index found is the first occurrence |
| Strings.Split | pkg/labeler/utils.go:47 | `strings.Split` yields at least one piece |
| Strings.Join | pkg/icassigner/action.go:240 | `strings.Join` starts with the first piece |
| Strings.Lower | pkg/icassigner/action.go:258 | ASCII lowercasing keeps the length, leaves no upper-case ASCII letter and changes nothing else |
| Strings.SplitPieces | pkg/labeler/utils.go:47 | no piece of `strings.Split` holds the separator |
| Strings.JoinSplit | pkg/labeler/utils.go:47 | joining the pieces with the separator gives the string back |
| Strings.JoinSnoc | pkg/labeler/utils.go:47 | joining one more piece appends the separator and the piece |
| Strings.SplitAt | pkg/labeler/utils.go:47 | a split at the first separator is the piece before it followed by the pieces of the rest |
| Strings.SplitTwo | pkg/labeler/utils.go:47 | two separator-free pieces joined by the separator split back into the two |
| Strings.SplitAppend | pkg/labeler/utils.go:47 | a separator-free last piece is split off whole |
| LabelerConfig.Validated | pkg/labeler/config.go:73-79 | the expression is kept; the weight is 1 when it was 0 and unchanged otherwise, negative included; it is compiled iff the expression compiles |
| LabelerConfig.ValidatedTwice | pkg/labeler/config.go:73-79 | validating a matcher twice is validating it once |
| LabelerConfig.ValidateMatcher | pkg/labeler/config.go:73-79 | only the one array element changes, to its validated form; the error is that of its expression |
| LabelerConfig.FirstInvalid | pkg/labeler/config.go:52-57 | every matcher before the index compiles and the one at it does not |
| LabelerConfig.ValidateLabel | pkg/labeler/config.go:51-59 | validates in place in index order up to and including the first failing matcher, returning its error; after success every matcher has a non-zero weight and a compiled expression |
| LabelerConfig.Config.Validate | pkg/labeler/config.go:34-44 | the label keys are unchanged; success iff every expression compiles, and then every label is validated; else the error of some label's first failing matcher, with that label validated up to it and every other label untouched or wholly validated; every label is left unchanged, validated, or validated up to its failure |
| LabelerConfig.Config.ValidateEntry | pkg/labeler/config.go:35-42 | one round: label `k`'s matchers are validated in its array, no other label changes, and the label is written back when it validated |
| LabelerConfig.ValidatedRulesReady | pkg/labeler/config.go:34-44 | after a successful validation every matcher is compiled and weighted non-zero, as the labeler needs |
| LabelerConfig.AllValidated | pkg/labeler/config.go:34-44 | the state after all labels validated is the fully validated rules |
| LabelerConfig.StoppedOn | pkg/labeler/config.go:35-38 | the state after a failing label shows that not every expression compiles |
| LabelerUtils.GetIssueLabels | pkg/labeler/utils.go:33-44 | as many names as labels, entry i being label i's name or "" without one; a name is in the result iff the issue carries it |
| LabelerUtils.SplitsInTwo | pkg/labeler/utils.go:47-49 | a URL with a "/" splits into at least two pieces, so both indexes exist |
| LabelerUtils.DecomposeRepoURL | pkg/labeler/utils.go:46-51 | owner and name are "/"-free (the last two pieces); the URL must hold a "/" |
| LabelerUtils.DecomposeJoined | pkg/labeler/utils.go:46-51 | round trip: any prefix + "/" + owner + "/" + name gives back (owner, name) |
| LabelerUtils.DecomposeSuffix | pkg/labeler/utils.go:46-51 | conversely the URL is "owner/name", or ends in "/owner/name" |
| LabelerUtils.TestRepositoryURL | pkg/labeler/labeler_test.go:32 | "/repos/testOwner/testRepo" gives ("testOwner", "testRepo") |
| RegexLabeler.MissScoresZero | pkg/labeler/labeler.go:87-94 | a label none of whose rules match scores 0 |
| RegexLabeler.Score | pkg/labeler/labeler.go:86-93 | with non-negative weights a label's score is non-negative |
| RegexLabeler.Labeler.Scores | pkg/labeler/labeler.go:83-95 | a label has a score entry iff one of its rules matches the title or the body, and the entry is the sum of the matching rules' weights |
| RegexLabeler.NewLabeler | pkg/labeler/labeler.go:38-44 | the labeler reads the configuration's labels, with their rules as they stand, and its required labels |
| RegexLabeler.PositiveWeights | pkg/labeler/labeler.go:83-95 | with positive weights a label scores above 0 iff one of its rules matches |
| RegexLabeler.HitSnoc | pkg/labeler/labeler.go:87-94 | one more rule matches iff the shorter prefix or the added rule does |
| RegexLabeler.PickBestTop | pkg/labeler/labeler.go:97-108 | without a label named "", the pick is "" iff nothing was scored, else a scored label no other one outscores |
| RegexLabeler.PickBest | pkg/labeler/labeler.go:97-108 | the loop picks "" over no labels, and otherwise one of the labels it met |
| RegexLabeler.EmptyNamedLabelCanLose | pkg/labeler/labeler.go:100-103 | a label named "" is overwritten by the next label even when it scores more |
| RegexLabeler.ScoreLabel | pkg/labeler/labeler.go:87-94 | the inner loop enters the label iff one of its rules matches, with the sum of the matching weights |
| RegexLabeler.ScoreLabels | pkg/labeler/labeler.go:83-95 | the score map has an entry exactly for the labels with a matching rule, holding the label's score, in any map order |
| RegexLabeler.FindLabel | pkg/labeler/labeler.go:80-117 | the labels are met once each; "no label found" iff the picked label's score is 0; a found label is scored and non-zero; without a label named "", it is a top score, and a miss means nothing matched or the top is 0 |
| RegexLabeler.HasRequiredLabels | pkg/labeler/labeler.go:162-174 | true iff the issue carries one of the required labels |
| RegexLabeler.GetAssignableLabels | pkg/labeler/labeler.go:141-147 | each configured label name exactly once |
| RegexLabeler.HasAssignableLabel | pkg/labeler/labeler.go:149-160 | true iff the issue carries one of the configured labels |
| RegexLabeler.AssignLabel | pkg/labeler/labeler.go:119-139 | no call when the issue has the label; otherwise one call with the issue's labels in order and the new one last, on the owner and name of its repository URL and on its number |
| RegexLabeler.Run | pkg/labeler/labeler.go:46-78 | nothing when no required label is present, nothing when a configured one is; "no label found" iff the picked score is 0; a panic iff a label with a non-zero score is picked and the issue has no repository URL containing "/"; otherwise the picked label is added by one call, and the outcome reports the assigner's result |
| RegexLabeler.MimirQueryScores | pkg/labeler/labeler_test.go:42-80 | when only the query rule matches, "mimir-query" is the one scored label, with score 1 |
| RegexLabeler.MimirIssueLabels | pkg/labeler/labeler_test.go:45-73 | the test issue carries the required "label1" and no configured label |
| RegexLabeler.MimirQueryCall | pkg/labeler/labeler_test.go:75-80 | the expected call adds "mimir-query" after "label1", "label2" on testOwner/testRepo, issue 333 |
| RegexLabeler.MimirCallLabels | pkg/labeler/labeler_test.go:79 | the expected labels are the issue's labels followed by "mimir-query" |
| RegexLabeler.MimirCallTarget | pkg/labeler/labeler_test.go:76-78 | the expected call targets the test issue's repository and number |
| RegexLabeler.NoRequiredLabel | pkg/labeler/labeler_test.go:81-107 | an issue with only "label3" and "label4" lacks the required "label1" / "label2" |

## Left out

- The GitHub, Google Calendar and OAuth clients, HTTP downloads, iCal decoding, YAML decoding, environment inputs and the `GITHUB_OUTPUT` file are left out. The model receives what the code reads through them as parameters, or leaves it out.
- `githubaction.SetOutput` and its error are left out (action.go:135, labeler.go:70-73). The IC assigner's output is the `output` of the outcome, and the labeler's `Labelled` outcome stands for setting `assignedLabel`.
- Logging and `Report.String` are left out. So are the team and member names passed only to log calls.
- `log.Fatalf` on a missing repository or owner is modelled as the `Aborted` outcome, after the output is set. A missing issue number, where Go would dereference nil, is modelled the same way. `AddAssignees` is the oracle `addAssignees`, and its error is the `AssignFailed` outcome.
- `time.Now()` is called several times by the Go code. The model takes one `now` for the whole run.
- `pkg/icassigner/calendar/google.go` and `pkg/icassigner/verify.go` are not part of this model. Their signatures do not match their callers in action.go. The Google check is an oracle taking the service key, calendar, member name and limit.
- The model requires a location for the iCal check, as a fixed UTC offset. Without X-WR-TIMEZONE the Go code passes a nil location, which `Time.In` does not accept. Daylight-saving changes between `now` and the event are not modelled.
- Recurrence expansion (`RecurrenceSet`, `Between`) belongs to go-ical. An event's occurrences are a finite ascending sequence of starts, and `Between` keeps those in the closed window.
- Regex compilation and matching are oracles. A compile error is identified by its expression.
- `strings.ToLower` is modelled as ASCII folding; Go also folds the rest of Unicode.
- Time and durations are unbounded integers of nanoseconds. The `int64` overflow of `time.Duration` and of `now.Add` is not modelled, and neither is the overflow of the level sort's comparator `a.Busyness - b.Busyness`.
- The listing call's page size of 20 is passed on, but the API's enforcement of it is not modelled.
- The model replaces `slices.SortFunc` with an in-place insertion sort (`Busyness.SortByBusyness`). Neither is stable, but the level keys are distinct, so the result is the same.
- `rand.Intn` is the oracle `intn`, required to return a value below its positive argument.
- Go map iteration order is an arbitrary choice. The merged team's member order and team-name order are stated only as sets with distinct names.
- RegexLabeler.FindLabel: the arg-max guarantee is stated only when no label is named "". Go uses "" as the "none yet" sentinel, so with such a label the choice can miss the top score (RegexLabeler.EmptyNamedLabelCanLose).
- The labeler's panic on a missing repository URL, or on one without a "/", is modelled as the `Panicked` outcome of `RegexLabeler.Run`. Go dereferences the URL and indexes its split only after a label with a non-zero score is picked, and that is when the model's run ends in `Panicked`.
- RegexLabeler.AssignLabel: requires a repository URL containing "/" when the label is new, for the same reason.
- LabelerConfig.Config.Validate: requires every label to have its own matcher array (`Separate`), as the YAML decoder builds them. Labels sharing one slice are not modelled.
- ICAssigner.ConvertLabels: requires every label to have a name. Go dereferences `*l.Name` and panics on a nil one.
