/** Helpers of the regex labeler (pkg/labeler/utils.go). */
module LabelerUtils {
  import opened Strings
  import opened GitHub

  /** Whether `name` is among the names `GetIssueLabels` reads off the issue (a label without name reads as ""). */
  predicate Carries(issue: Issue, name: string)
  {
    exists i :: 0 <= i < |issue.labels| && issue.labels[i].GetName() == name
  }

  /** `getIssueLabels`: one entry per label of the issue, in order; "" where the label has no name. */
  method GetIssueLabels(issue: Issue) returns (names: seq<string>)
    ensures |names| == |issue.labels|
    ensures forall i :: 0 <= i < |names| ==> names[i] == issue.labels[i].GetName()
    ensures forall name :: name in names <==> Carries(issue, name)
  {
    var a := new string[|issue.labels|](_ => "");
    for i := 0 to |issue.labels|
      invariant forall j :: 0 <= j < i ==> a[j] == issue.labels[j].GetName()
      invariant forall j :: i <= j < a.Length ==> a[j] == ""
    {
      if issue.labels[i].name.None? {
        continue;
      }
      a[i] := issue.labels[i].name.value;
    }
    names := a[..];
    assert forall name :: Carries(issue, name) ==> name in names by {
      forall name | Carries(issue, name)
        ensures name in names
      {
        var i :| 0 <= i < |issue.labels| && issue.labels[i].GetName() == name;
        assert names[i] == name;
      }
    }
  }

  /** A string holding the separator splits into at least two pieces. */
  lemma SplitsInTwo(s: string, sep: char)
    requires sep in s
    ensures |Split(s, sep)| >= 2
  {
    IndexOfSpec(s, sep);
  }

  /**
   * `decomposeRepoURL`: the owner and the name of a repository are the last two
   * "/"-separated pieces of its URL. Without a "/" in the URL the Go code indexes
   * out of range.
   */
  function DecomposeRepoURL(repoURL: string): (r: (string, string))
    requires '/' in repoURL
    ensures '/' !in r.0 && '/' !in r.1
  {
    SplitsInTwo(repoURL, '/');
    SplitPieces(repoURL, '/');
    var parts := Split(repoURL, '/');
    (parts[|parts| - 2], parts[|parts| - 1])
  }

  /** Owner and name read back from any URL that ends in "/owner/name". */
  lemma DecomposeJoined(prefix: string, owner: string, name: string)
    requires '/' !in owner && '/' !in name
    ensures DecomposeRepoURL(prefix + "/" + owner + "/" + name) == (owner, name)
  {
    SplitAppend(prefix, '/', owner);
    SplitAppend(prefix + "/" + owner, '/', name);
  }

  /** Conversely, the URL ends in "owner/name", preceded by "/" when there are more pieces. */
  lemma DecomposeSuffix(repoURL: string)
    requires '/' in repoURL
    ensures var (owner, name) := DecomposeRepoURL(repoURL);
      repoURL == owner + "/" + name || exists p :: repoURL == p + "/" + owner + "/" + name
  {
    SplitsInTwo(repoURL, '/');
    var parts := Split(repoURL, '/');
    var n := |parts|;
    JoinSplit(repoURL, '/');
    assert parts == parts[..n - 1] + [parts[n - 1]];
    JoinSnoc(parts[..n - 1], parts[n - 1], "/");
    if n == 2 {
      assert parts[..n - 1] == [parts[0]];
    } else {
      assert parts[..n - 1] == parts[..n - 2] + [parts[n - 2]];
      JoinSnoc(parts[..n - 2], parts[n - 2], "/");
      var p := Join(parts[..n - 2], "/");
      assert repoURL == p + "/" + parts[n - 2] + "/" + parts[n - 1];
    }
  }

  /** The repository URL of the labeler's test issue. */
  lemma TestRepositoryURL()
    ensures DecomposeRepoURL("/repos/testOwner/testRepo") == ("testOwner", "testRepo")
  {
    DecomposeJoined("/repos", "testOwner", "testRepo");
    assert "/repos" + "/" + "testOwner" + "/" + "testRepo" == "/repos/testOwner/testRepo";
  }
}
