/** What the updater asks of GitHub: the owner and repository taken from a
    repository URL, the REST API URLs built from them, the latest release or
    commit, and the URL a tracked file is downloaded from.

    The network itself is not modelled: a `Network` value says, for one run,
    which API URLs answer with a record and which download URLs answer with
    a body. A URL that is absent is a request that failed (unreachable host,
    time-out or a non-2xx status). */
module GitHub {
  import opened Wrappers
  import opened PyStr

  type Bytes = seq<bv8>

  const WebPrefix: string := "https://github.com/"
  const ApiRepos: string := "https://api.github.com/repos/"

  /** One entry of a release's `assets` list. */
  datatype Asset = Asset(name: string, browserDownloadUrl: string)

  /** The fields of a release that the updater reads; a missing `assets`
      list is the empty one. */
  datatype Release = Release(tagName: string, assets: seq<Asset>)

  /** The field of a commit that the updater reads. */
  datatype Commit = Commit(sha: string)

  datatype Network = Network(
    releases: map<string, Release>,
    commits: map<string, Commit>,
    downloads: map<string, Bytes>)

  /** The upstream state a component is compared against: a release when
      releases are used, otherwise the head commit of a branch. */
  datatype Latest = FromRelease(release: Release) | FromCommit(commit: Commit)

  /** The repository URL with `https://github.com/` removed. */
  function RepoPath(repoUrl: string): string {
    RemoveAll(repoUrl, WebPrefix)
  }

  /** The owner and repository of a repository URL: the first two
      `/`-separated segments of its path; none when there is no `/`. */
  function ParseRepo(repoUrl: string): (r: Option<(string, string)>)
    ensures r.None? <==> '/' !in RepoPath(repoUrl)
    ensures r.Some? ==> '/' !in r.value.0 && '/' !in r.value.1
  {
    var parts := Split(RepoPath(repoUrl), '/');
    if |parts| < 2 then None else Some((parts[0], parts[1]))
  }

  /** Splitting at the first separator: the piece before it, then the
      pieces of what follows. */
  lemma {:induction false} SplitAtFirst(x: string, y: string, sep: char)
    requires sep !in x
    ensures Split(x + [sep] + y, sep) == [x] + Split(y, sep)
    decreases |x|
  {
    var s := x + [sep] + y;
    if x == [] {
      assert s[1..] == y;
    } else {
      assert s[1..] == x[1..] + [sep] + y;
      SplitAtFirst(x[1..], y, sep);
      assert [x[0]] + x[1..] == x;
    }
  }

  /** A string without the separator is its own single piece. */
  lemma SplitWhole(x: string, sep: char)
    requires sep !in x
    ensures Split(x, sep) == [x]
  {
    SplitJoin(x, sep);
  }

  /** The owner and the repository are exactly the two leading segments of
      the path: the path starts with `owner/repo` and goes on, if at all,
      with another `/`. */
  lemma ParseRepoSegments(repoUrl: string)
    requires ParseRepo(repoUrl).Some?
    ensures var path := RepoPath(repoUrl);
            var owner := ParseRepo(repoUrl).value.0;
            var repo := ParseRepo(repoUrl).value.1;
            && StartsWith(path, owner + "/" + repo)
            && (|path| == |owner| + 1 + |repo| || path[|owner| + 1 + |repo|] == '/')
  {
    var path := RepoPath(repoUrl);
    var parts := Split(path, '/');
    SplitJoin(path, '/');
    assert Join(parts, '/') == parts[0] + "/" + Join(parts[1..], '/');
    if |parts| == 2 {
      assert path == parts[0] + "/" + parts[1];
    } else {
      assert Join(parts[1..], '/') == parts[1] + "/" + Join(parts[2..], '/');
      assert path == (parts[0] + "/" + parts[1]) + ("/" + Join(parts[2..], '/'));
    }
  }

  /** The first two pieces of `owner/repo` followed by nothing or by a
      further `/...` are the owner and the repository. */
  lemma SplitOwnerRepo(owner: string, repo: string, rest: string)
    requires '/' !in owner && '/' !in repo
    requires rest == [] || rest[0] == '/'
    ensures var parts := Split(owner + "/" + repo + rest, '/');
            |parts| >= 2 && parts[0] == owner && parts[1] == repo
  {
    assert owner + "/" + repo + rest == owner + ['/'] + (repo + rest);
    SplitAtFirst(owner, repo + rest, '/');
    if rest == [] {
      assert repo + rest == repo;
      SplitWhole(repo, '/');
    } else {
      assert repo + rest == repo + ['/'] + rest[1..];
      SplitAtFirst(repo, rest[1..], '/');
    }
  }

  /** Conversely, a well-formed GitHub URL yields its owner and repository. */
  lemma ParseGithubUrl(owner: string, repo: string, rest: string)
    requires '/' !in owner && '/' !in repo
    requires rest == [] || rest[0] == '/'
    requires !Contains(owner + "/" + repo + rest, WebPrefix)
    ensures ParseRepo(WebPrefix + owner + "/" + repo + rest) == Some((owner, repo))
  {
    var tail := owner + "/" + repo + rest;
    assert WebPrefix + owner + "/" + repo + rest == WebPrefix + tail;
    RemoveLeading(WebPrefix, tail);
    SplitOwnerRepo(owner, repo, rest);
  }

  function ReleaseApiUrl(owner: string, repo: string): string {
    ApiRepos + owner + "/" + repo + "/releases/latest"
  }

  function CommitApiUrl(owner: string, repo: string, branch: string): string {
    ApiRepos + owner + "/" + repo + "/commits/" + branch
  }

  /** `_get_latest_release`: the release the API reports for the owner and
      repository of `repoUrl`; none for an unparsable URL or a failed request. */
  function LatestRelease(repoUrl: string, net: Network): (r: Option<Release>)
    ensures r.Some? <==>
              ParseRepo(repoUrl).Some? &&
              ReleaseApiUrl(ParseRepo(repoUrl).value.0, ParseRepo(repoUrl).value.1) in net.releases
    ensures r.Some? ==>
              r.value == net.releases[ReleaseApiUrl(ParseRepo(repoUrl).value.0, ParseRepo(repoUrl).value.1)]
  {
    match ParseRepo(repoUrl)
    case None => None
    case Some((owner, repo)) =>
      var api := ReleaseApiUrl(owner, repo);
      if api in net.releases then Some(net.releases[api]) else None
  }

  /** `_get_latest_commit`: the head commit of `branch`; when the request for
      `master` fails the lookup is retried once with `main`. */
  function LatestCommit(repoUrl: string, branch: string, net: Network): Option<Commit>
    decreases if branch == "master" then 1 else 0
  {
    match ParseRepo(repoUrl)
    case None => None
    case Some((owner, repo)) =>
      var api := CommitApiUrl(owner, repo, branch);
      if api in net.commits then Some(net.commits[api])
      else if branch == "master" then LatestCommit(repoUrl, "main", net)
      else None
  }

  /** The commit lookup used by the updater: `master` first, `main` only when
      `master` fails, nothing at all for an unparsable URL. */
  lemma CommitFallback(repoUrl: string, net: Network)
    ensures ParseRepo(repoUrl).None? ==> LatestCommit(repoUrl, "master", net).None?
    ensures ParseRepo(repoUrl).Some? ==>
              var owner := ParseRepo(repoUrl).value.0;
              var repo := ParseRepo(repoUrl).value.1;
              var master := CommitApiUrl(owner, repo, "master");
              var main := CommitApiUrl(owner, repo, "main");
              && (master in net.commits ==>
                    LatestCommit(repoUrl, "master", net) == Some(net.commits[master]))
              && (master !in net.commits && main in net.commits ==>
                    LatestCommit(repoUrl, "master", net) == Some(net.commits[main]))
              && (master !in net.commits && main !in net.commits ==>
                    LatestCommit(repoUrl, "master", net).None?)
  {
    if ParseRepo(repoUrl).Some? {
      assert "main" != "master";
    }
  }

  /** Release-versus-commit selection: the latest release when releases are
      configured and one is found, the commit lookup otherwise. */
  function FetchLatest(repoUrl: string, useReleases: bool, net: Network): (r: Option<Latest>)
    ensures (r.Some? && r.value.FromRelease?) <==> useReleases && LatestRelease(repoUrl, net).Some?
    ensures r.Some? && r.value.FromRelease? ==> r.value.release == LatestRelease(repoUrl, net).value
    ensures !(useReleases && LatestRelease(repoUrl, net).Some?) ==>
              (r.Some? <==> LatestCommit(repoUrl, "master", net).Some?) &&
              (r.Some? ==> r.value == FromCommit(LatestCommit(repoUrl, "master", net).value))
  {
    var release := if useReleases then LatestRelease(repoUrl, net) else None;
    if release.Some? then Some(FromRelease(release.value))
    else
      match LatestCommit(repoUrl, "master", net)
      case Some(c) => Some(FromCommit(c))
      case None => None
  }

  /** The upstream version string: the release tag, or the first eight
      characters of the commit SHA. */
  function LatestVersion(l: Latest): (v: string)
    ensures l.FromRelease? ==> v == l.release.tagName
    ensures l.FromCommit? ==> StartsWith(l.commit.sha, v) && |v| == if |l.commit.sha| < 8 then |l.commit.sha| else 8
  {
    match l
    case FromRelease(rel) => rel.tagName
    case FromCommit(c) => Take(c.sha, 8)
  }

  /** Index of the first asset called `name`, or `|assets|` when none is. */
  function FirstMatch(assets: seq<Asset>, name: string): (k: nat)
    ensures k <= |assets|
    ensures k < |assets| ==> assets[k].name == name
    ensures forall j :: 0 <= j < k ==> assets[j].name != name
    decreases |assets|
  {
    if assets == [] then 0
    else if assets[0].name == name then 0
    else 1 + FirstMatch(assets[1..], name)
  }

  /** Searching past an asset with another name finds the same match. */
  lemma FirstMatchPast(assets: seq<Asset>, name: string, k: nat)
    requires k < |assets| && k <= FirstMatch(assets, name) && assets[k].name != name
    ensures k + 1 <= FirstMatch(assets, name)
  {
  }

  /** The first asset with the name, reached by a search that skipped only
      assets with other names, is the match. */
  lemma FirstMatchAt(assets: seq<Asset>, name: string, k: nat)
    requires k < |assets| && k <= FirstMatch(assets, name) && assets[k].name == name
    ensures FirstMatch(assets, name) == k
  {
  }

  /** `{repo_url}/raw/{ref}/{source}` */
  function RawUrl(repoUrl: string, ref: string, source: string): string {
    repoUrl + "/raw/" + ref + "/" + source
  }

  /** Where a tracked file is downloaded from. For a release: the download
      URL of the first asset named like the file's basename, unless that URL
      is empty; otherwise the raw file at the tag. For a commit: the raw file
      at the full SHA. */
  function DownloadUrl(repoUrl: string, l: Latest, source: string): string {
    match l
    case FromRelease(rel) =>
      var k := FirstMatch(rel.assets, Basename(source));
      if k < |rel.assets| && rel.assets[k].browserDownloadUrl != "" then rel.assets[k].browserDownloadUrl
      else RawUrl(repoUrl, rel.tagName, source)
    case FromCommit(c) => RawUrl(repoUrl, c.sha, source)
  }

  /** The URL for a release, given the position the asset search stopped at. */
  lemma DownloadUrlFound(repoUrl: string, rel: Release, source: string, base: string, k: nat)
    requires base == Basename(source) && k == FirstMatch(rel.assets, base)
    ensures DownloadUrl(repoUrl, FromRelease(rel), source) ==
              if k < |rel.assets| && rel.assets[k].browserDownloadUrl != "" then rel.assets[k].browserDownloadUrl
              else RawUrl(repoUrl, rel.tagName, source)
  {
  }

  /** In commit mode the file is always taken raw at the full SHA. */
  lemma DownloadUrlCommit(repoUrl: string, c: Commit, source: string)
    ensures DownloadUrl(repoUrl, FromCommit(c), source) == repoUrl + "/raw/" + c.sha + "/" + source
  {
  }

  /** A release with no asset named like the file: raw at the tag. */
  lemma DownloadUrlNoAsset(repoUrl: string, rel: Release, source: string)
    requires forall j :: 0 <= j < |rel.assets| ==> rel.assets[j].name != Basename(source)
    ensures DownloadUrl(repoUrl, FromRelease(rel), source) == repoUrl + "/raw/" + rel.tagName + "/" + source
  {
  }

  /** A release whose first asset named like the file is asset `i`: that
      asset's download URL, or the raw file at the tag when it is empty. */
  lemma DownloadUrlAsset(repoUrl: string, rel: Release, source: string, i: nat)
    requires i < |rel.assets| && rel.assets[i].name == Basename(source)
    requires forall j :: 0 <= j < i ==> rel.assets[j].name != Basename(source)
    ensures rel.assets[i].browserDownloadUrl != "" ==>
              DownloadUrl(repoUrl, FromRelease(rel), source) == rel.assets[i].browserDownloadUrl
    ensures rel.assets[i].browserDownloadUrl == "" ==>
              DownloadUrl(repoUrl, FromRelease(rel), source) == repoUrl + "/raw/" + rel.tagName + "/" + source
  {
    var k := FirstMatch(rel.assets, Basename(source));
    assert k == i;
  }
}
