/**
 * Pull requests as `_github.py` describes them, the default change line of a
 * pull request, and `parse_remote_url`.
 */
module GitHub {
  import opened Results
  import opened Text

  /**
   * A frozen dataclass: Dafny's structural equality on all six fields is the
   * dataclass's generated `__eq__`.
   */
  datatype PullRequest = PullRequest(
    title: string,
    number: int,
    labels: set<string>,
    author: string,
    repoName: string,
    repoOwner: string)

  const GitHubPrefix: string := "https://github.com/"

  /** The `url` property. */
  function Url(pr: PullRequest): string {
    GitHubPrefix + pr.repoOwner + "/" + pr.repoName + "/pull/" + IntToString(pr.number)
  }

  /** The URL splits back into owner, repository and number. */
  lemma UrlSegments(pr: PullRequest)
    requires '/' !in pr.repoOwner && '/' !in pr.repoName
    ensures Split(Url(pr), '/') ==
      ["https:", "", "github.com", pr.repoOwner, pr.repoName, "pull", IntToString(pr.number)]
  {
    var n := IntToString(pr.number);
    var parts := ["https:", "", "github.com", pr.repoOwner, pr.repoName, "pull", n];
    assert '/' !in n by {
      if pr.number >= 0 {
        assert AllDigits(NatToString(pr.number));
      } else {
        assert AllDigits(NatToString(-pr.number));
        assert n == "-" + NatToString(-pr.number);
      }
    }
    var path := [pr.repoOwner, pr.repoName, "pull", n];
    assert Join(parts, '/') == Url(pr) by {
      JoinGitHub(path);
      assert parts == ["https:", "", "github.com"] + path;
      UrlPath(pr.repoOwner, pr.repoName, n);
    }
    SplitJoin(parts, '/');
  }

  /** Joining `https:`, an empty part and `github.com` in front of a path gives the GitHub prefix. */
  lemma JoinGitHub(path: seq<string>)
    requires |path| >= 1
    ensures Join(["https:", "", "github.com"] + path, '/') == GitHubPrefix + Join(path, '/')
  {
    var p := Join(path, '/');
    var a := ["github.com"] + path;
    var b := [""] + a;
    JoinCons("github.com", path, '/');
    JoinCons("", a, '/');
    JoinCons("https:", b, '/');
    assert ["https:"] + b == ["https:", "", "github.com"] + path;
    GitHubPrefixParts(p);
  }

  lemma UrlPath(owner: string, name: string, n: string)
    ensures GitHubPrefix + Join([owner, name, "pull", n], '/') ==
      GitHubPrefix + owner + "/" + name + "/pull/" + n
  {
    JoinCons("pull", [n], '/');
    JoinCons(name, ["pull", n], '/');
    JoinCons(owner, [name, "pull", n], '/');
    UrlPathParts(owner, name, n);
  }

  lemma UrlPathParts(owner: string, name: string, n: string)
    ensures GitHubPrefix + (owner + ['/'] + (name + ['/'] + ("pull" + ['/'] + n))) ==
      GitHubPrefix + owner + "/" + name + "/pull/" + n
  {
  }

  lemma GitHubPrefixParts(p: string)
    ensures "https:" + ['/'] + ("" + ['/'] + ("github.com" + ['/'] + p)) == GitHubPrefix + p
  {
  }

  /** `__lt__`: pull requests are ordered by number alone. */
  predicate Lt(a: PullRequest, b: PullRequest) {
    a.number < b.number
  }

  /**
   * The order is a strict total order on numbers, so two different pull
   * requests with the same number are unordered.
   */
  lemma LtByNumber(a: PullRequest, b: PullRequest)
    ensures !Lt(a, a)
    ensures Lt(a, b) ==> !Lt(b, a)
    ensures !Lt(a, b) && !Lt(b, a) <==> a.number == b.number
  {
  }

  lemma LtIgnoresOtherFields()
    ensures exists a: PullRequest, b: PullRequest :: a != b && !Lt(a, b) && !Lt(b, a)
  {
    var a := PullRequest("a", 1, {}, "", "", "");
    var b := a.(title := "b");
    assert a != b && !Lt(a, b) && !Lt(b, a);
  }

  /** The reference `[#N]` that marks a pull request in a changelog entry. */
  function Marker(number: int): string {
    "[#" + IntToString(number) + "]"
  }

  /**
   * The default `change_template`, `- {title} ([#{number}]({url}))`, without
   * its list bullet: the text of the list item it becomes.
   */
  function ChangeItem(pr: PullRequest): (item: string)
    ensures StartsWith(item, pr.title)
    ensures EndsWith(item, "(" + Url(pr) + "))")
  {
    pr.title + " (" + Marker(pr.number) + "(" + Url(pr) + "))"
  }

  /** The default template as a Markdown list line. */
  function ChangeLine(pr: PullRequest): (line: string)
    ensures StartsWith(line, "- ") && line[2..] == ChangeItem(pr)
  {
    "- " + ChangeItem(pr)
  }

  /** The item of a pull request mentions the pull request's marker. */
  lemma ChangeItemMarker(pr: PullRequest)
    ensures Contains(ChangeItem(pr), Marker(pr.number))
  {
    var head := pr.title + " (";
    var marker := Marker(pr.number);
    var tail := "(" + Url(pr) + "))";
    assert ChangeItem(pr) == head + marker + tail by {
      ConcatAssociative(head + marker, "(" + Url(pr), "))");
      ConcatAssociative(head + marker, "(", Url(pr));
      ConcatAssociative("(", Url(pr), "))");
    }
    ContainsMiddle(head, marker, tail);
  }

  // ---------------------------------------------------------------------------
  // parse_remote_url
  // ---------------------------------------------------------------------------

  const SshPrefix: string := "git@github.com:"

  /** `repo[:-4]` when `repo` ends with `.git`. */
  function StripGitSuffix(repo: string): (r: string)
    ensures EndsWith(repo, ".git") ==> repo == r + ".git"
    ensures !EndsWith(repo, ".git") ==> r == repo
  {
    if EndsWith(repo, ".git") then repo[..|repo| - 4] else repo
  }

  /**
   * `parse_remote_url`: `(owner, repo)`. The SSH form must hold exactly one
   * `/` after its prefix (ValueError from the tuple unpacking otherwise); any
   * other form takes the last two `/`-separated parts (IndexError when there
   * is no `/`).
   */
  function ParseRemoteUrl(url: string): (r: Result<(string, string)>)
    ensures StartsWith(url, SshPrefix) ==>
      (r.Failure? <==> Count(url[|SshPrefix|..], '/') != 1)
      && (r.Failure? ==> r.error == ValueError)
    ensures !StartsWith(url, SshPrefix) ==>
      (r.Failure? <==> '/' !in url) && (r.Failure? ==> r.error == IndexError)
    ensures r.Success? ==> '/' !in r.value.0 && '/' !in r.value.1
  {
    if StartsWith(url, SshPrefix) then
      var parts := Split(url[|SshPrefix|..], '/');
      SplitCount(url[|SshPrefix|..], '/');
      if |parts| != 2 then Failure(ValueError)
      else Success((parts[0], StripGitSuffix(parts[1])))
    else
      var parts := Split(url, '/');
      SplitCount(url, '/');
      CountAbsent(url, '/');
      if |parts| < 2 then Failure(IndexError)
      else Success((parts[|parts| - 2], StripGitSuffix(parts[|parts| - 1])))
  }

  /** The SSH remote of a repository parses back to its owner and name. */
  lemma ParseSshRemote(owner: string, repo: string, suffix: string)
    requires '/' !in owner && '/' !in repo
    requires suffix == ".git" || (suffix == "" && !EndsWith(repo, ".git"))
    ensures ParseRemoteUrl(SshPrefix + owner + "/" + repo + suffix) == Success((owner, repo))
  {
    var url := SshPrefix + owner + "/" + repo + suffix;
    var last := repo + suffix;
    var path := owner + "/" + last;
    assert StartsWith(url, SshPrefix) && url[|SshPrefix|..] == path by {
      ConcatAssociative(SshPrefix + owner + "/", repo, suffix);
      ConcatAssociative(SshPrefix, owner + "/", last);
      ConcatAssociative(SshPrefix, owner, "/");
    }
    assert Split(path, '/') == [owner, last] by {
      PathSplit(owner, last);
    }
    assert StripGitSuffix(last) == repo by {
      assert last[..|repo|] == repo;
    }
    ParseSshForm(url);
  }

  /** Two parts joined by one `/` split back into them. */
  lemma PathSplit(owner: string, last: string)
    requires '/' !in owner && '/' !in last
    ensures Split(owner + "/" + last, '/') == [owner, last]
  {
    JoinCons(owner, [last], '/');
    SplitJoin([owner, last], '/');
  }

  /** An SSH remote with exactly one `/` after its prefix names the two parts around it. */
  lemma ParseSshForm(url: string)
    requires StartsWith(url, SshPrefix) && |Split(url[|SshPrefix|..], '/')| == 2
    ensures
      var parts := Split(url[|SshPrefix|..], '/');
      ParseRemoteUrl(url) == Success((parts[0], StripGitSuffix(parts[1])))
  {
  }

  /** The HTTPS remote of a repository parses back to its owner and name. */
  lemma ParseHttpsRemote(owner: string, repo: string, suffix: string)
    requires '/' !in owner && '/' !in repo
    requires suffix == ".git" || (suffix == "" && !EndsWith(repo, ".git"))
    ensures ParseRemoteUrl(GitHubPrefix + owner + "/" + repo + suffix) == Success((owner, repo))
  {
    var url := GitHubPrefix + owner + "/" + repo + suffix;
    var last := repo + suffix;
    assert url == GitHubPrefix + owner + "/" + last by {
      ConcatAssociative(GitHubPrefix + owner + "/", repo, suffix);
    }
    assert !StartsWith(url, SshPrefix) by {
      assert url[0] == 'h';
    }
    HttpsSplit(owner, last);
    assert StripGitSuffix(last) == repo by {
      assert last[..|repo|] == repo;
    }
    ParseOtherRemote(url);
  }

  /** The HTTPS remote of a repository splits into the scheme, the host and its two path parts. */
  lemma HttpsSplit(owner: string, last: string)
    requires '/' !in owner && '/' !in last
    ensures Split(GitHubPrefix + owner + "/" + last, '/') == ["https:", "", "github.com", owner, last]
  {
    var parts := ["https:", "", "github.com", owner, last];
    assert GitHubPrefix + owner + "/" + last == Join(parts, '/') by {
      JoinCons(owner, [last], '/');
      JoinGitHub([owner, last]);
      assert parts == ["https:", "", "github.com"] + [owner, last];
    }
    SplitJoin(parts, '/');
  }

  /** Any remote other than the SSH form with at least one `/` names its last two parts. */
  lemma ParseOtherRemote(url: string)
    requires !StartsWith(url, SshPrefix) && |Split(url, '/')| >= 2
    ensures
      var parts := Split(url, '/');
      ParseRemoteUrl(url) == Success((parts[|parts| - 2], StripGitSuffix(parts[|parts| - 1])))
  {
  }
}
