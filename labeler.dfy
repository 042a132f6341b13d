/**
 * The regex labeler (pkg/labeler/labeler.go). When an issue carries one of the
 * required labels and none of the configured ones, every configured label is
 * scored by the weights of its rules that match the title or the body, and the
 * best-scoring label is added to the issue.
 */
module RegexLabeler {
  import opened Wrappers
  import opened GitHub
  import opened MapIteration
  import opened LabelerConfig
  import opened LabelerUtils

  /** `Regexp.MatchString` as an oracle. */
  type Matches = (Regex, string) -> bool

  /** What the labeler reads of its configuration: label name to rules, and the required labels. */
  datatype Labeler = Labeler(labels: map<string, seq<Matcher>>, requireLabel: seq<string>)
  {
    /**
     * `scoreByLabel` once `findLabel` has looked at every rule: a label has an
     * entry iff one of its rules matches, and the entry is its score.
     */
    function Scores(title: string, body: string, matches: Matches): (scores: map<string, int>)
      requires Compiled(labels)
      ensures forall l :: l in scores <==> l in labels && AnyHit(labels[l], title, body, matches)
      ensures forall l :: l in scores ==> scores[l] == Score(labels[l], title, body, matches)
    {
      map l | l in labels && AnyHit(labels[l], title, body, matches) :: Score(labels[l], title, body, matches)
    }
  }

  /** `NewLabeler`: the labeler over the rules of a configuration. */
  function NewLabeler(cfg: Config): (lab: Labeler)
    reads cfg, cfg.Arrays()
    ensures lab.labels.Keys == cfg.labels.Keys && lab.requireLabel == cfg.requireLabel
    ensures forall k :: k in cfg.labels ==> lab.labels[k] == cfg.labels[k].matchers[..]
  {
    Labeler(cfg.Rules(), cfg.requireLabel)
  }

  /** Whether the compiled rule `m` matches the title or the body. */
  predicate Hits(m: Matcher, title: string, body: string, matches: Matches)
    requires m.regex.Some?
  {
    matches(m.regex.value, title) || matches(m.regex.value, body)
  }

  /** Whether some rule of `ms` matches. */
  predicate AnyHit(ms: seq<Matcher>, title: string, body: string, matches: Matches)
    requires AllCompiled(ms)
  {
    exists i :: 0 <= i < |ms| && Hits(ms[i], title, body, matches)
  }

  /** The sum of the weights of the rules of `ms` that match. */
  function Score(ms: seq<Matcher>, title: string, body: string, matches: Matches): (s: int)
    requires AllCompiled(ms)
    ensures (forall i :: 0 <= i < |ms| ==> ms[i].weight >= 0) ==> s >= 0
  {
    if ms == [] then 0
    else
      var m := ms[|ms| - 1];
      Score(ms[..|ms| - 1], title, body, matches) + (if Hits(m, title, body, matches) then m.weight else 0)
  }

  /** A label none of whose rules match scores 0. */
  lemma {:induction false} MissScoresZero(ms: seq<Matcher>, title: string, body: string, matches: Matches)
    requires AllCompiled(ms) && !AnyHit(ms, title, body, matches)
    ensures Score(ms, title, body, matches) == 0
  {
    if ms != [] {
      var init := ms[..|ms| - 1];
      assert !AnyHit(init, title, body, matches) by {
        forall i | 0 <= i < |init|
          ensures !Hits(init[i], title, body, matches)
        {
          assert init[i] == ms[i];
        }
      }
      MissScoresZero(init, title, body, matches);
    }
  }

  /** With positive weights (the default of 1 included), a label scores above 0 iff one of its rules matches. */
  lemma {:induction false} PositiveWeights(ms: seq<Matcher>, title: string, body: string, matches: Matches)
    requires AllCompiled(ms)
    requires forall i :: 0 <= i < |ms| ==> ms[i].weight > 0
    ensures AnyHit(ms, title, body, matches) <==> Score(ms, title, body, matches) > 0
  {
    if ms != [] {
      var init := ms[..|ms| - 1];
      PositiveWeights(init, title, body, matches);
      HitSnoc(ms, |ms| - 1, title, body, matches);
      assert ms[..|ms| - 1 + 1] == ms;
      if !AnyHit(init, title, body, matches) {
        MissScoresZero(init, title, body, matches);
      }
    }
  }

  /** A prefix one rule longer matches iff the shorter one does or the added rule does. */
  lemma HitSnoc(ms: seq<Matcher>, j: nat, title: string, body: string, matches: Matches)
    requires AllCompiled(ms) && j < |ms|
    ensures AnyHit(ms[..j + 1], title, body, matches)
        <==> AnyHit(ms[..j], title, body, matches) || Hits(ms[j], title, body, matches)
  {
    var longer := ms[..j + 1];
    if AnyHit(longer, title, body, matches) {
      var i :| 0 <= i < |longer| && Hits(longer[i], title, body, matches);
      if i < j {
        assert ms[..j][i] == longer[i];
      }
    }
    if AnyHit(ms[..j], title, body, matches) {
      var i :| 0 <= i < j && Hits(ms[..j][i], title, body, matches);
      assert longer[i] == ms[..j][i];
    }
    assert longer[j] == ms[j];
  }

  /** `scoreByLabel[l]`: Go reads a missing entry as 0. */
  function ScoreOf(scores: map<string, int>, l: string): int
  {
    if l in scores then scores[l] else 0
  }

  /** `s` lists the elements of `keys`, each once (a Go map's iteration order). */
  predicate Lists(s: seq<string>, keys: set<string>)
  {
    && (forall l :: l in s ==> l in keys) && (forall l :: l in keys ==> l in s)
    && (forall i, j :: 0 <= i < j < |s| ==> s[i] != s[j])
  }

  /** `l` has a score no other label exceeds. */
  predicate IsTop(scores: map<string, int>, l: string)
  {
    l in scores && forall l' :: l' in scores ==> scores[l'] <= scores[l]
  }

  /**
   * The second loop of `findLabel` over the labels in the order `order`: the first
   * label is taken while `bestLabel` is still "", a later one only when it scores
   * strictly more.
   */
  function PickBest(order: seq<string>, scores: map<string, int>): (best: string)
    ensures order == [] ==> best == ""
    ensures order != [] ==> best in order
  {
    if order == [] then ""
    else
      var best := PickBest(order[..|order| - 1], scores);
      var l := order[|order| - 1];
      if best == "" then l
      else if ScoreOf(scores, l) > ScoreOf(scores, best) then l
      else best
  }

  /** When no label is named "", the loop ends on a label no other one outscores. */
  lemma {:induction false} PickBestTop(order: seq<string>, scores: map<string, int>)
    requires forall l :: l in order ==> l in scores && l != ""
    ensures order == [] <==> PickBest(order, scores) == ""
    ensures order != [] ==>
      PickBest(order, scores) in order && forall l :: l in order ==> scores[l] <= scores[PickBest(order, scores)]
  {
    if order != [] {
      var init := order[..|order| - 1];
      assert forall l :: l in init ==> l in order;
      PickBestTop(init, scores);
      assert forall l :: l in order ==> l in init || l == order[|order| - 1];
      var last := order[|order| - 1];
      assert last in order;
      assert PickBest(order, scores) == PickBest(init, scores) || PickBest(order, scores) == last;
      assert PickBest(order, scores) in order;
    }
  }

  /** A label named "" holds `bestLabel` at its sentinel: the next label wins whatever it scores. */
  lemma EmptyNamedLabelCanLose()
    ensures PickBest(["", "b"], map["" := 2, "b" := 1]) == "b"
    ensures !IsTop(map["" := 2, "b" := 1], "b")
  {
    assert ["", "b"][..1] == [""];
    assert [""][..0] == [];
    assert map["" := 2, "b" := 1][""] == 2;
  }

  /** The inner loop of `findLabel` for the label `name`, which has no entry yet. */
  method ScoreLabel(scores: map<string, int>, name: string, ms: seq<Matcher>,
                    title: string, body: string, matches: Matches)
    returns (r: map<string, int>)
    requires AllCompiled(ms) && name !in scores
    ensures r == if AnyHit(ms, title, body, matches) then scores[name := Score(ms, title, body, matches)] else scores
  {
    r := scores;
    for j := 0 to |ms|
      invariant r == if AnyHit(ms[..j], title, body, matches) then scores[name := Score(ms[..j], title, body, matches)] else scores
    {
      assert ms[..j + 1][..j] == ms[..j];
      HitSnoc(ms, j, title, body, matches);
      if !AnyHit(ms[..j], title, body, matches) {
        MissScoresZero(ms[..j], title, body, matches);
      }
      if matches(ms[j].regex.value, title) || matches(ms[j].regex.value, body) {
        r := r[name := ScoreOf(r, name) + ms[j].weight];
      }
    }
    assert ms[..|ms|] == ms;
  }

  /** The first loop of `findLabel`: every label's rules are scored, in map order. */
  method ScoreLabels(lab: Labeler, title: string, body: string, matches: Matches)
    returns (scores: map<string, int>)
    requires Compiled(lab.labels)
    ensures scores == lab.Scores(title, body, matches)
  {
    scores := map[];
    var pending := lab.labels.Keys;
    while pending != {}
      invariant pending <= lab.labels.Keys
      invariant forall l :: l in scores ==> l in lab.labels && l !in pending
      invariant forall l :: l in lab.labels && l !in pending ==>
        (l in scores <==> AnyHit(lab.labels[l], title, body, matches))
      invariant forall l :: l in scores ==> scores[l] == Score(lab.labels[l], title, body, matches)
      decreases pending
    {
      var l := Pick(pending);
      scores := ScoreLabel(scores, l, lab.labels[l], title, body, matches);
      pending := pending - {l};
    }
  }

  /**
   * `findLabel`. `order` is the order in which the second loop met the scored
   * labels; without a label named "" the result is a label no other one
   * outscores, and "no label found" means the top score is 0 or nothing matched.
   */
  method FindLabel(lab: Labeler, title: string, body: string, matches: Matches)
    returns (name: string, found: bool, ghost order: seq<string>)
    requires Compiled(lab.labels)
    ensures Lists(order, lab.Scores(title, body, matches).Keys)
    ensures found <==> ScoreOf(lab.Scores(title, body, matches), PickBest(order, lab.Scores(title, body, matches))) != 0
    ensures name == if found then PickBest(order, lab.Scores(title, body, matches)) else ""
    ensures found ==> name in lab.Scores(title, body, matches) && lab.Scores(title, body, matches)[name] != 0
    ensures var scores := lab.Scores(title, body, matches);
      "" !in scores ==> (found ==> IsTop(scores, name))
    ensures var scores := lab.Scores(title, body, matches);
      "" !in scores ==> (!found ==> scores == map[] || exists l :: IsTop(scores, l) && scores[l] == 0)
  {
    var scores := ScoreLabels(lab, title, body, matches);
    var best := "";
    var rest := scores.Keys;
    order := [];
    while rest != {}
      invariant rest <= scores.Keys
      invariant forall l :: l in scores ==> (l in rest <==> l !in order)
      invariant forall l :: l in order ==> l in scores
      invariant forall i, j :: 0 <= i < j < |order| ==> order[i] != order[j]
      invariant best == PickBest(order, scores)
      decreases rest
    {
      var l := Pick(rest);
      if best == "" {
        best := l;
      } else if scores[l] > ScoreOf(scores, best) {
        best := l;
      }
      assert (order + [l])[..|order|] == order;
      order := order + [l];
      rest := rest - {l};
    }
    if "" !in scores {
      PickBestTop(order, scores);
    }
    if ScoreOf(scores, best) == 0 {
      return "", false, order;
    }
    return best, true, order;
  }

  /** Whether the issue carries one of the required labels. */
  predicate Required(lab: Labeler, issue: Issue)
  {
    exists r :: r in lab.requireLabel && Carries(issue, r)
  }

  /** Whether the issue already carries one of the configured labels. */
  predicate HasConfiguredLabel(lab: Labeler, issue: Issue)
  {
    exists k :: k in lab.labels && Carries(issue, k)
  }

  /** `hasRequiredLabels`: a flag set by every required label the issue carries. */
  method HasRequiredLabels(lab: Labeler, issue: Issue) returns (present: bool)
    ensures present <==> Required(lab, issue)
  {
    var issueLabels := GetIssueLabels(issue);
    present := false;
    for i := 0 to |lab.requireLabel|
      invariant present <==> exists j :: 0 <= j < i && Carries(issue, lab.requireLabel[j])
    {
      if lab.requireLabel[i] in issueLabels {
        present := true;
      }
    }
  }

  /** `getAssignableLabels`: the configured label names, in map order. */
  method GetAssignableLabels(lab: Labeler) returns (names: seq<string>)
    ensures Lists(names, lab.labels.Keys)
  {
    names := [];
    var rest := lab.labels.Keys;
    while rest != {}
      invariant rest <= lab.labels.Keys
      invariant forall k :: k in lab.labels ==> (k in rest <==> k !in names)
      invariant forall k :: k in names ==> k in lab.labels
      invariant forall i, j :: 0 <= i < j < |names| ==> names[i] != names[j]
      decreases rest
    {
      var k := Pick(rest);
      names := names + [k];
      rest := rest - {k};
    }
  }

  /** `hasAssignableLabel`: whether the issue already carries a configured label. */
  method HasAssignableLabel(lab: Labeler, issue: Issue) returns (present: bool)
    ensures present <==> HasConfiguredLabel(lab, issue)
  {
    var issueLabels := GetIssueLabels(issue);
    var assignable := GetAssignableLabels(lab);
    for i := 0 to |assignable|
      invariant forall j :: 0 <= j < i ==> !Carries(issue, assignable[j])
    {
      if assignable[i] in issueLabels {
        assert assignable[i] in lab.labels;
        return true;
      }
    }
    return false;
  }

  /** A call of the label assigner, which replaces the issue's labels by `labels`. */
  datatype LabelCall = LabelCall(repoOwner: string, repoName: string, issueNumber: int, labels: seq<string>)

  /** `ReplaceLabelsForIssue` as an oracle: whether the call succeeds. */
  type LabelAssigner = LabelCall -> bool

  /** The issue has a repository URL that `decomposeRepoURL` can take apart. */
  predicate HasRepositoryURL(issue: Issue)
  {
    issue.repositoryURL.Some? && '/' in issue.repositoryURL.value
  }

  /** `labels` are the issue's labels in order, followed by `name`. */
  predicate AppendsLabel(labels: seq<string>, issue: Issue, name: string)
  {
    && |labels| == |issue.labels| + 1
    && (forall i :: 0 <= i < |issue.labels| ==> labels[i] == issue.labels[i].GetName())
    && labels[|issue.labels|] == name
  }

  /** `call` is made on the issue's repository, as its URL gives it, and on its number. */
  predicate TargetsIssue(call: LabelCall, issue: Issue)
  {
    && HasRepositoryURL(issue)
    && (call.repoOwner, call.repoName) == DecomposeRepoURL(issue.repositoryURL.value)
    && call.issueNumber == issue.GetNumber()
  }

  /** `call` adds `name` to the issue's labels. */
  predicate AddsLabel(call: LabelCall, issue: Issue, name: string)
  {
    AppendsLabel(call.labels, issue, name) && TargetsIssue(call, issue)
  }

  /** `assignLabel`: no call when the issue already has the label, else one call adding it. */
  method AssignLabel(issue: Issue, name: string, assigner: LabelAssigner)
    returns (call: Option<LabelCall>, ok: bool)
    requires !Carries(issue, name) ==> HasRepositoryURL(issue)
    ensures Carries(issue, name) ==> call == None && ok
    ensures !Carries(issue, name) ==> call.Some? && AddsLabel(call.value, issue, name) && ok == assigner(call.value)
  {
    var issueLabels := GetIssueLabels(issue);
    for i := 0 to |issueLabels|
      invariant forall j :: 0 <= j < i ==> issueLabels[j] != name
    {
      if issueLabels[i] == name {
        return None, true;
      }
    }
    issueLabels := issueLabels + [name];
    var (repoOwner, repoName) := DecomposeRepoURL(issue.repositoryURL.value);
    var c := LabelCall(repoOwner, repoName, issue.GetNumber(), issueLabels);
    return Some(c), assigner(c);
  }

  /** How a run of the labeler ends. */
  datatype Outcome =
    | NotRequired                                  // none of the required labels: nothing done
    | AlreadyLabelled                              // a configured label is already there: nothing done
    | NoLabelFound                                 // the "no label found" error
    | Panicked(name: string)                       // no repository URL with a "/" to take apart: Go panics
    | AssignFailed(name: string, call: LabelCall) // the assigner's error
    | Labelled(name: string, call: LabelCall)     // label added and set as the `assignedLabel` output

  /** What `Run` promises of the label it adds: `findLabel`'s choice, and a call that adds it. */
  ghost predicate ChoseLabel(lab: Labeler, issue: Issue, matches: Matches, order: seq<string>, name: string, call: LabelCall)
    requires Compiled(lab.labels)
  {
    var scores := lab.Scores(issue.GetTitle(), issue.GetBody(), matches);
    && Required(lab, issue) && !HasConfiguredLabel(lab, issue)
    && name == PickBest(order, scores) && name in scores && scores[name] != 0
    && ("" !in scores ==> IsTop(scores, name))
    && AddsLabel(call, issue, name)
  }

  /** `Labeler.Run`. */
  method Run(lab: Labeler, issue: Issue, matches: Matches, assigner: LabelAssigner)
    returns (outcome: Outcome, ghost order: seq<string>)
    requires Compiled(lab.labels)
    ensures outcome.NotRequired? <==> !Required(lab, issue)
    ensures outcome.AlreadyLabelled? <==> Required(lab, issue) && HasConfiguredLabel(lab, issue)
    ensures Required(lab, issue) && !HasConfiguredLabel(lab, issue) ==>
      Lists(order, lab.Scores(issue.GetTitle(), issue.GetBody(), matches).Keys)
    ensures var scores := lab.Scores(issue.GetTitle(), issue.GetBody(), matches);
      outcome.NoLabelFound? <==>
        Required(lab, issue) && !HasConfiguredLabel(lab, issue) && ScoreOf(scores, PickBest(order, scores)) == 0
    ensures var scores := lab.Scores(issue.GetTitle(), issue.GetBody(), matches);
      outcome.Panicked? <==>
        Required(lab, issue) && !HasConfiguredLabel(lab, issue) && ScoreOf(scores, PickBest(order, scores)) != 0 &&
        !HasRepositoryURL(issue)
    ensures outcome.Panicked? ==> outcome.name == PickBest(order, lab.Scores(issue.GetTitle(), issue.GetBody(), matches))
    ensures outcome.Labelled? ==> ChoseLabel(lab, issue, matches, order, outcome.name, outcome.call) && assigner(outcome.call)
    ensures outcome.AssignFailed? ==> ChoseLabel(lab, issue, matches, order, outcome.name, outcome.call) && !assigner(outcome.call)
  {
    order := [];
    var required := HasRequiredLabels(lab, issue);
    if !required {
      return NotRequired, order;
    }
    var assignable := HasAssignableLabel(lab, issue);
    if assignable {
      return AlreadyLabelled, order;
    }
    var name, found;
    name, found, order := FindLabel(lab, issue.GetTitle(), issue.GetBody(), matches);
    if !found {
      return NoLabelFound, order;
    }
    assert name in lab.labels;
    if !HasRepositoryURL(issue) {
      return Panicked(name), order;
    }
    var call, ok := AssignLabel(issue, name, assigner);
    if !ok {
      return AssignFailed(name, call.value), order;
    }
    return Labelled(name, call.value), order;
  }

  // The labeler's test cases.

  const IngestRule := Matcher("", Some(Regex(".*something something ingest.*")), 1)
  const QueryRule := Matcher("", Some(Regex(".*something something query.*")), 1)
  const MimirLabeler := Labeler(map["mimir-ingest" := [IngestRule], "mimir-query" := [QueryRule]], ["label1", "label3"])
  const TestIssue := Issue(Some(333), Some("some title"), Some("some body abc something something query more text."),
                           None, [GitHub.Label(Some("label1")), GitHub.Label(Some("label2"))], [], None,
                           Some("/repos/testOwner/testRepo"))

  /** When only the query rule matches, "mimir-query" is the one scored label, with score 1. */
  lemma MimirQueryScores(matches: Matches)
    requires matches(QueryRule.regex.value, TestIssue.GetBody())
    requires !matches(IngestRule.regex.value, TestIssue.GetTitle()) && !matches(IngestRule.regex.value, TestIssue.GetBody())
    ensures MimirLabeler.Scores(TestIssue.GetTitle(), TestIssue.GetBody(), matches) == map["mimir-query" := 1]
  {
    var title, body := TestIssue.GetTitle(), TestIssue.GetBody();
    var labels := MimirLabeler.labels;
    assert labels["mimir-query"] == [QueryRule] && labels["mimir-ingest"] == [IngestRule];
    assert Hits([QueryRule][0], title, body, matches);
    assert AnyHit([QueryRule], title, body, matches);
    assert !AnyHit([IngestRule], title, body, matches) by {
      forall i | 0 <= i < |[IngestRule]|
        ensures !Hits([IngestRule][i], title, body, matches)
      {
        assert [IngestRule][i] == IngestRule;
      }
    }
    assert [QueryRule][..0] == [];
    assert Score([QueryRule], title, body, matches) == 1;
    var sc := MimirLabeler.Scores(title, body, matches);
    assert labels.Keys == {"mimir-ingest", "mimir-query"};
    assert sc.Keys == {"mimir-query"};
    assert sc["mimir-query"] == 1;
  }

  /** The test issue carries the required "label1" and neither configured label. */
  lemma MimirIssueLabels()
    ensures Required(MimirLabeler, TestIssue) && !HasConfiguredLabel(MimirLabeler, TestIssue)
  {
    assert TestIssue.labels[0].GetName() == "label1";
    assert Carries(TestIssue, "label1");
    assert "label1" in MimirLabeler.requireLabel;
  }

  /** The call that adds "mimir-query" to the test issue's labels on testOwner/testRepo. */
  lemma MimirQueryCall()
    ensures AddsLabel(LabelCall("testOwner", "testRepo", 333, ["label1", "label2", "mimir-query"]), TestIssue, "mimir-query")
  {
    MimirCallLabels();
    MimirCallTarget();
  }

  lemma MimirCallLabels()
    ensures AppendsLabel(["label1", "label2", "mimir-query"], TestIssue, "mimir-query")
  {
    assert TestIssue.labels[0].GetName() == "label1";
    assert TestIssue.labels[1].GetName() == "label2";
  }

  lemma MimirCallTarget()
    ensures TargetsIssue(LabelCall("testOwner", "testRepo", 333, ["label1", "label2", "mimir-query"]), TestIssue)
  {
    assert TestIssue.repositoryURL.value[0] == '/';
    TestRepositoryURL();
  }

  const QueryOnlyLabeler := Labeler(map["mimir-query" := [Matcher("", Some(Regex(".*")), 1)]], ["label1", "label2"])
  const OtherIssue := TestIssue.(labels := [GitHub.Label(Some("label3")), GitHub.Label(Some("label4"))])

  /** An issue with none of the required labels is left alone. */
  lemma NoRequiredLabel()
    ensures !Required(QueryOnlyLabeler, OtherIssue)
  {
    assert OtherIssue.labels[0].GetName() == "label3" && OtherIssue.labels[1].GetName() == "label4";
  }
}
