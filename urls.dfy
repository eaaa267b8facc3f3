/** Project identifiers and result files: `url` (analyze_repo_multi_trhead.py:437-474)
    turns a `owner_repo` identifier into a clone URL, `analyze_repo` names the
    result file after the repository (lines 365-371), and `analyze_all` takes
    the identifiers back out of the result file names (line 484). */
module Urls {
  import opened Wrappers
  import Text

  /** `URL_PREFIXES`: the hosts other than GitHub an identifier may start
      with, and the git host each stands for. */
  const UrlPrefixes: map<string, string> := map[
    "bitbucket.org" := "bitbucket.org",
    "gitlab.com" := "gitlab.com",
    "android.googlesource.com" := "android.googlesource.com",
    "bioconductor.org" := "bioconductor.org",
    "drupal.com" := "git.drupal.org",
    "git.eclipse.org" := "git.eclipse.org",
    "git.kernel.org" := "git.kernel.org",
    "git.postgresql.org" := "git.postgresql.org",
    "git.savannah.gnu.org" := "git.savannah.gnu.org",
    "git.zx2c4.com" := "git.zx2c4.com",
    "gitlab.gnome.org" := "gitlab.gnome.org",
    "kde.org" := "anongit.kde.org",
    "repo.or.cz" := "repo.or.cz",
    "salsa.debian.org" := "salsa.debian.org",
    "sourceforge.net" := "git.code.sf.net/p"]

  const Sourceforge: string := "sourceforge.net"

  lemma SourceforgeEntry()
    ensures Sourceforge in UrlPrefixes && UrlPrefixes[Sourceforge] == "git.code.sf.net/p"
  {
  }

  /** The URL, and whether `url` logged it as probably invalid. */
  datatype ResolvedUrl = ResolvedUrl(url: string, probablyInvalid: bool)

  // ---------------------------------------------------------------------------
  // url, as written
  // ---------------------------------------------------------------------------

  /** `url(project_id)`, with `URL_PREFIXES` passed in as `prefixes`. The
      identifier is split on its first `_` only, so there are never more
      than two chunks. */
  function Url(prefixes: map<string, string>, projectId: string): ResolvedUrl {
    var chunks := Text.Split(projectId, "_", 1);
    var prefix := chunks[0];
    var platform :=
      if (|chunks| > 2 || prefix == Sourceforge) && prefix in prefixes then prefixes[prefix]
      else Text.Join("/", ["github.com", chunks[0]]);
    var res :=
      if |chunks| > 1 then Text.Join("/", ["https:/", platform, chunks[1]])
      else Text.Join("/", ["https:/", platform]);
    var res := if |chunks| > 2 then Text.Join("/", [res, Text.Join("_", chunks[2..])]) else res;
    ResolvedUrl(res, |chunks| <= 1)
  }

  /** Where an identifier's first chunk puts the repository: Sourceforge's
      git host, or a GitHub owner. */
  function Platform(prefixes: map<string, string>, prefix: string): string {
    if prefix == Sourceforge && Sourceforge in prefixes then prefixes[Sourceforge] else "github.com/" + prefix
  }

  /** The split yields at most two chunks, so the branches for more are dead. */
  lemma UrlChunks(projectId: string)
    ensures 1 <= |Text.Split(projectId, "_", 1)| <= 2
  {
    Text.SplitFromBound(projectId, "_", 1, []);
  }

  /** `url` without `split`: an identifier with a `_` is the owner (or the
      Sourceforge marker) before the first `_` and the repository after it;
      one without is taken whole as the owner, and logged. */
  lemma UrlSpec(prefixes: map<string, string>, projectId: string)
    ensures '_' in projectId ==>
      var k := Text.IndexOf(projectId, '_');
      Url(prefixes, projectId)
        == ResolvedUrl("https://" + Platform(prefixes, projectId[..k]) + "/" + projectId[k + 1..], false)
    ensures '_' !in projectId ==> Url(prefixes, projectId) == ResolvedUrl("https://" + Platform(prefixes, projectId), true)
  {
    Text.SplitOnce(projectId, '_');
    assert "https:/" + "/" == "https://" && "github.com" + "/" == "github.com/";
    if '_' in projectId {
      var k := Text.IndexOf(projectId, '_');
      var owner, repo := projectId[..k], projectId[k + 1..];
      Text.JoinPair("/", "github.com", owner);
      var platform := Platform(prefixes, owner);
      assert Url(prefixes, projectId).url == Text.Join("/", ["https:/", platform, repo]);
      Text.JoinTriple("/", "https:/", platform, repo);
      assert "https:/" + "/" + platform + "/" + repo == "https://" + platform + "/" + repo;
    } else {
      Text.JoinPair("/", "github.com", projectId);
      var platform := Platform(prefixes, projectId);
      assert Url(prefixes, projectId).url == Text.Join("/", ["https:/", platform]);
      Text.JoinPair("/", "https:/", platform);
      assert "https:/" + "/" + platform == "https://" + platform;
    }
  }

  /** The host table is consulted for the Sourceforge marker only: any other
      first chunk, a host in the table or not, is taken for a GitHub owner,
      and the rest of the identifier, underscores included, for the
      repository. */
  lemma UrlIgnoresHosts(prefixes: map<string, string>, host: string, rest: string)
    requires host != Sourceforge && '_' !in host
    ensures Url(prefixes, host + "_" + rest) == ResolvedUrl("https://" + ("github.com/" + host) + "/" + rest, false)
  {
    var id := host + "_" + rest;
    Text.IndexOfAfter(host, '_', rest);
    UrlSpec(prefixes, id);
    assert id[..|host|] == host && id[|host| + 1..] == rest;
  }

  lemma GithubUrl(owner: string, repo: string)
    ensures "https://" + ("github.com/" + owner) + "/" + repo == GithubPrefix + owner + "/" + repo
  {
    assert "https://" + "github.com/" == GithubPrefix;
    assert "https://" + ("github.com/" + owner) == GithubPrefix + owner;
  }

  lemma UrlExampleGithub()
    ensures Url(UrlPrefixes, "foo_bar") == ResolvedUrl("https://github.com/foo/bar", false)
  {
    assert "foo_bar" == "foo" + "_" + "bar";
    UrlIgnoresHosts(UrlPrefixes, "foo", "bar");
    GithubUrl("foo", "bar");
  }

  /** A host from the table is still taken for a GitHub owner. */
  lemma UrlExampleHost(projectId: string)
    requires projectId == "bitbucket.org_alice_myrepo"
    ensures Url(UrlPrefixes, projectId) == ResolvedUrl("https://github.com/bitbucket.org/alice_myrepo", false)
  {
    assert projectId == "bitbucket.org" + "_" + "alice_myrepo";
    UrlIgnoresHosts(UrlPrefixes, "bitbucket.org", "alice_myrepo");
    HostExampleUrl();
  }

  lemma HostExampleUrl()
    ensures "https://" + ("github.com/" + "bitbucket.org") + "/" + "alice_myrepo"
         == "https://github.com/bitbucket.org/alice_myrepo"
  {
    assert "github.com/" + "bitbucket.org" == "github.com/bitbucket.org";
    assert "https://" + "github.com/bitbucket.org" == "https://github.com/bitbucket.org";
    assert "https://github.com/bitbucket.org" + "/" == "https://github.com/bitbucket.org/";
  }

  /** The Sourceforge marker resolves on Sourceforge's git host. */
  lemma UrlSourceforge(prefixes: map<string, string>, rest: string)
    requires Sourceforge in prefixes
    ensures Url(prefixes, Sourceforge + "_" + rest) == ResolvedUrl("https://" + prefixes[Sourceforge] + "/" + rest, false)
  {
    var id := Sourceforge + "_" + rest;
    Text.IndexOfAfter(Sourceforge, '_', rest);
    UrlSpec(prefixes, id);
    assert id[..|Sourceforge|] == Sourceforge && id[|Sourceforge| + 1..] == rest;
  }

  /** An identifier without `_` is taken whole for a GitHub owner, and
      logged. */
  lemma UrlNoUnderscore(prefixes: map<string, string>, projectId: string)
    requires '_' !in projectId && projectId != Sourceforge
    ensures Url(prefixes, projectId) == ResolvedUrl("https://" + ("github.com/" + projectId), true)
  {
    UrlSpec(prefixes, projectId);
  }

  // ---------------------------------------------------------------------------
  // url, as evidently intended
  // ---------------------------------------------------------------------------

  /** The host table applied: an identifier starting with a known host is
      `host_namespace_repository`, and resolves on that host. Every other
      identifier resolves as `url` resolves it. */
  function IntendedUrl(prefixes: map<string, string>, projectId: string): ResolvedUrl {
    var chunks := Text.Split(projectId, "_", 1);
    if |chunks| == 2 && chunks[0] in prefixes && chunks[0] != Sourceforge && '_' in chunks[1] then
      var rest := chunks[1];
      var k := Text.IndexOf(rest, '_');
      ResolvedUrl("https://" + prefixes[chunks[0]] + "/" + rest[..k] + "/" + rest[k + 1..], false)
    else Url(prefixes, projectId)
  }

  /** A known host's identifier resolves on that host, namespace first. */
  lemma IntendedUrlHost(prefixes: map<string, string>, host: string, ns: string, name: string)
    requires host in prefixes && host != Sourceforge && '_' !in host && '_' !in ns
    ensures IntendedUrl(prefixes, host + "_" + ns + "_" + name)
         == ResolvedUrl("https://" + prefixes[host] + "/" + ns + "/" + name, false)
  {
    var rest := ns + "_" + name;
    assert host + "_" + ns + "_" + name == host + "_" + rest;
    IntendedUrlSplit(prefixes, host, rest);
    Text.IndexOfAfter(ns, '_', name);
    assert rest[..|ns|] == ns && rest[|ns| + 1..] == name;
  }

  lemma IntendedUrlSplit(prefixes: map<string, string>, host: string, rest: string)
    requires host in prefixes && host != Sourceforge && '_' !in host && '_' in rest
    ensures var k := Text.IndexOf(rest, '_');
      IntendedUrl(prefixes, host + "_" + rest)
        == ResolvedUrl("https://" + prefixes[host] + "/" + rest[..k] + "/" + rest[k + 1..], false)
  {
    Chunks(host, rest);
  }

  /** An identifier splits into the part before its first `_` and the rest. */
  lemma Chunks(first: string, rest: string)
    requires '_' !in first
    ensures Text.Split(first + "_" + rest, "_", 1) == [first, rest]
  {
    var id := first + "_" + rest;
    Text.IndexOfAfter(first, '_', rest);
    Text.SplitOnce(id, '_');
    assert id[..|first|] == first && id[|first| + 1..] == rest;
  }

  /** GitHub identifiers, and Sourceforge ones, resolve as before. */
  lemma IntendedUrlAgrees(prefixes: map<string, string>, projectId: string)
    requires Text.Split(projectId, "_", 1)[0] !in prefixes || Text.Split(projectId, "_", 1)[0] == Sourceforge
    ensures IntendedUrl(prefixes, projectId) == Url(prefixes, projectId)
  {
  }

  lemma IntendedUrlExample(projectId: string)
    requires projectId == "bitbucket.org_alice_myrepo"
    ensures IntendedUrl(UrlPrefixes, projectId) == ResolvedUrl("https://bitbucket.org/alice/myrepo", false)
  {
    assert projectId == "bitbucket.org" + "_" + "alice" + "_" + "myrepo";
    assert "bitbucket.org" in UrlPrefixes && UrlPrefixes["bitbucket.org"] == "bitbucket.org";
    IntendedUrlHost(UrlPrefixes, "bitbucket.org", "alice", "myrepo");
    IntendedExampleUrl();
  }

  lemma IntendedExampleUrl()
    ensures "https://" + "bitbucket.org" + "/" + "alice" + "/" + "myrepo" == "https://bitbucket.org/alice/myrepo"
  {
  }

  /** `url` and its intended reading part ways on a host from the table. */
  lemma UrlHostFinding(projectId: string)
    requires projectId == "bitbucket.org_alice_myrepo"
    ensures Url(UrlPrefixes, projectId) != IntendedUrl(UrlPrefixes, projectId)
  {
    UrlExampleHost(projectId);
    IntendedUrlExample(projectId);
    assert |"https://github.com/bitbucket.org/alice_myrepo"| != |"https://bitbucket.org/alice/myrepo"|;
  }

  // ---------------------------------------------------------------------------
  // Result files
  // ---------------------------------------------------------------------------

  const GithubPrefix: string := "https://github.com/"

  /** `analysis['name']`: the project identifier when there is one, else the
      URL's last piece after `https://github.com/`. */
  function RepoName(url: string, projectId: Option<string>): string {
    match projectId
    case Some(p) => p
    case None =>
      var pieces := Text.Split(url, GithubPrefix, -1);
      pieces[|pieces| - 1]
  }

  /** The result file's name: every `/` and the first `_` become `#`. */
  function ResultFileName(name: string): (r: string)
    ensures Text.EndsWith(r, ".json")
  {
    Text.ReplaceFirst(Text.ReplaceAll(name, "/", "#"), "_", "#") + ".json"
  }

  /** `path.join('results', ...)`. */
  function OutfilePath(name: string): string {
    "results/" + ResultFileName(name)
  }

  /** The identifier `analyze_all` reads back from a result file name, to
      skip the projects already analysed. */
  function AnalyzedId(fileName: string): string {
    Text.ReplaceAll(Text.ReplaceFirst(Text.ReplaceAll(fileName, GithubPrefix, ""), "#", "_"), ".json", "")
  }

  /** A GitHub URL names the repository by what follows the prefix. */
  lemma RepoNameOfGithubUrl(rest: string)
    requires !Text.Occurs(rest, GithubPrefix)
    ensures RepoName(GithubPrefix + rest, None) == rest
  {
    var url := GithubPrefix + rest;
    assert GithubPrefix <= url;
    assert url[|GithubPrefix|..] == rest;
    Text.SplitFromAbsentPattern(rest, GithubPrefix, -2, []);
    assert Text.Split(url, GithubPrefix, -1) == [[]] + [[] + rest];
  }

  /** The identifier read back from a result file is the one the file was
      named after, for identifiers without `/`, `#` or `.json`. */
  lemma ResultFileRoundTrip(name: string)
    requires '/' !in name && '#' !in name && !Text.Occurs(name, ".json")
    ensures AnalyzedId(ResultFileName(name)) == name
  {
    Text.AbsentChar(name, "/", '/');
    Text.ReplaceAllAbsent(name, "/", "#");
    var f := Text.ReplaceFirst(name, "_", "#") + ".json";
    assert ResultFileName(name) == f;
    Text.ReplaceFirstCharShape(name, '_', '#');
    assert '/' !in f;
    Text.AbsentChar(f, GithubPrefix, '/');
    Text.ReplaceAllAbsent(f, GithubPrefix, "");
    Text.ReplaceFirstCharUndone(name, '_', '#', ".json");
    Text.RemoveTrailingPattern(name, ".json");
  }

  lemma ResultFileExample(name: string)
    requires name == "CS340-19_lectures"
    ensures ResultFileName(name) == "CS340-19#lectures.json"
  {
    assert name == "CS340-19" + "_" + "lectures";
    ResultFileNameOfId("CS340-19", "lectures");
    ResultFileExampleName("CS340-19", "lectures");
  }

  lemma ResultFileExampleName(owner: string, repo: string)
    requires owner == "CS340-19" && repo == "lectures"
    ensures owner + "#" + repo + ".json" == "CS340-19#lectures.json"
  {
  }

  lemma OutfileExample(url: string)
    requires url == "https://github.com/foo/bar"
    ensures OutfilePath(RepoName(url, None)) == "results/foo#bar.json"
  {
    assert url == GithubPrefix + "foo/bar";
    Text.AbsentChar("foo/bar", GithubPrefix, ':');
    RepoNameOfGithubUrl("foo/bar");
    OutfileExampleName("foo/bar");
  }

  lemma OutfileExampleName(name: string)
    requires name == "foo/bar"
    ensures OutfilePath(name) == "results/foo#bar.json"
  {
    assert name == "foo" + "/" + "bar";
    OutfileOfRepo("foo", "bar");
    assert "results/" + "foo" + "#" + "bar" + ".json" == "results/foo#bar.json";
  }

  /** A repository named `owner/repo` is written to `results/owner#repo.json`. */
  lemma OutfileOfRepo(owner: string, repo: string)
    requires '/' !in owner && '/' !in repo && '_' !in owner && '_' !in repo
    ensures OutfilePath(owner + "/" + repo) == "results/" + owner + "#" + repo + ".json"
  {
    Text.ReplaceAllOne(owner, '/', '#', repo);
    var r := owner + "#" + repo;
    assert '_' !in r;
    Text.ReplaceFirstChar(r, '_', '#');
  }

  /** An `owner_repo` identifier names the file `owner#repo.json`. */
  lemma ResultFileNameOfId(owner: string, repo: string)
    requires '/' !in owner && '/' !in repo && '_' !in owner
    ensures ResultFileName(owner + "_" + repo) == owner + "#" + repo + ".json"
  {
    var id := owner + "_" + repo;
    assert '/' !in id;
    Text.AbsentChar(id, "/", '/');
    Text.ReplaceAllAbsent(id, "/", "#");
    Text.IndexOfAfter(owner, '_', repo);
    Text.ReplaceFirstChar(id, '_', '#');
    assert id[..|owner|] == owner && id[|owner| + 1..] == repo;
  }
}
