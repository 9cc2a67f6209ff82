/**
 * The module extractor: every `.info` file under `cache/download` of a Go
 * module cache names a module (its directory path, case-decoded) and a
 * version (its file name). The VCS origin recorded by the proxy is used
 * when it has a URL and a hash; otherwise the repository is guessed from
 * the module path, the commit from a pseudo-version, or the tag looked up
 * with `git ls-remote`.
 */
module ExtractModules {
  import opened Wrappers
  import opened Strings
  import opened PathCodec

  // ---------------------------------------------------------------------------
  // git ls-remote
  // ---------------------------------------------------------------------------

  /** The outcome of one `git ls-remote <url> <ref>` run. */
  datatype Run = Run(returnCode: int, stdout: string)

  /** Runs `git ls-remote <url> <ref>`; `None` when the run raised (a timeout, no `git`). */
  type Runner = (string, string) -> Option<Run>

  const TagsPrefix: string := "refs/tags/"

  /** The refs queried: for a tag, its dereferenced form `^{}` first, then the tag itself. */
  function RefsToTry(ref: string): (refs: seq<string>)
    ensures |refs| >= 1 && refs[|refs| - 1] == ref
    ensures |refs| == 2 <==> StartsWith(ref, TagsPrefix)
    ensures |refs| == 2 ==> refs[0] == ref + "^{}"
  {
    if StartsWith(ref, TagsPrefix) then [ref + "^{}", ref] else [ref]
  }

  /** The hash of the first output line, when the run succeeded and it is 40 characters long. */
  function HashOf(r: Run): (h: Option<string>)
    ensures h.Some? ==> |h.value| == 40
  {
    if r.returnCode == 0 && Strip(r.stdout) != "" then
      var line := Split(Strip(r.stdout), '\n')[0];
      var hash := Split(line, '\t')[0];
      if |hash| == 40 then Some(hash) else None
    else None
  }

  /** The first hash the refs give; a run that raises ends the search empty-handed. */
  function LsRemoteFrom(url: string, refs: seq<string>, run: Runner): (h: string)
    ensures h == "" || |h| == 40
  {
    if |refs| == 0 then ""
    else match run(url, refs[0])
      case None => ""
      case Some(r) => if HashOf(r).Some? then HashOf(r).value else LsRemoteFrom(url, refs[1..], run)
  }

  /** `git_ls_remote(url, ref)` */
  function LsRemote(url: string, ref: string, run: Runner): (h: string)
    ensures h == "" || |h| == 40
  {
    LsRemoteFrom(url, RefsToTry(ref), run)
  }

  /** The loop over the refs to try, returning at the first hash. */
  method GitLsRemote(url: string, ref: string, run: Runner) returns (hash: string)
    ensures hash == LsRemote(url, ref, run)
    ensures hash == "" || |hash| == 40
  {
    var refs := RefsToTry(ref);
    var i := 0;
    while i < |refs|
      invariant 0 <= i <= |refs|
      invariant LsRemoteFrom(url, refs[i..], run) == LsRemote(url, ref, run)
    {
      assert refs[i..][1..] == refs[i + 1..];
      var result := run(url, refs[i]);
      if result.None? {
        return "";
      }
      var found := HashOf(result.value);
      if found.Some? {
        return found.value;
      }
      i := i + 1;
    }
    return "";
  }

  lemma {:induction false} LsRemoteFromAnswer(url: string, refs: seq<string>, run: Runner)
    ensures var h := LsRemoteFrom(url, refs, run);
      h != "" ==> exists q :: q in refs && run(url, q).Some? && HashOf(run(url, q).value) == Some(h)
  {
    if |refs| > 0 && run(url, refs[0]).Some? && HashOf(run(url, refs[0]).value).None? {
      LsRemoteFromAnswer(url, refs[1..], run);
      assert forall q :: q in refs[1..] ==> q in refs;
    }
  }

  /**
   * A non-empty answer is the hash one of the queried refs gave. For a tag
   * the dereferenced form is asked first, so its hash, when it has one,
   * is the answer; any other ref is asked once.
   */
  lemma LsRemoteAnswers(url: string, ref: string, run: Runner)
    ensures var h := LsRemote(url, ref, run);
      h != "" ==> exists q :: q in RefsToTry(ref) && run(url, q).Some? && HashOf(run(url, q).value) == Some(h)
    ensures StartsWith(ref, TagsPrefix) && run(url, ref + "^{}").Some? && HashOf(run(url, ref + "^{}").value).Some? ==>
      LsRemote(url, ref, run) == HashOf(run(url, ref + "^{}").value).value
    ensures !StartsWith(ref, TagsPrefix) ==>
      LsRemote(url, ref, run) == if run(url, ref).Some? && HashOf(run(url, ref).value).Some? then HashOf(run(url, ref).value).value else ""
  {
    LsRemoteFromAnswer(url, RefsToTry(ref), run);
    var refs := RefsToTry(ref);
    if |refs| == 2 {
      assert refs[1..][1..] == [];
      assert refs[1..][0] == refs[1];
    } else {
      assert refs[1..] == [];
    }
  }

  /**
   * `resolve_short_hash`: only a 12-character hash is looked up (through
   * the GitHub API, a ref listing or a clone, given here as `lookup`);
   * anything else is returned as it is.
   */
  function ResolveShortHash(url: string, shortHash: string, lookup: (string, string) -> string): (r: string)
    ensures |shortHash| != 12 ==> r == shortHash
    ensures |shortHash| == 12 ==> r == lookup(url, shortHash)
  {
    if |shortHash| != 12 then shortHash else lookup(url, shortHash)
  }

  // ---------------------------------------------------------------------------
  // Repository from the module path
  // ---------------------------------------------------------------------------

  /** A guessed repository URL and the module's directory inside it (`''` at the root). */
  datatype Repo = Repo(url: string, subpath: string)

  const GopkgMappings: map<string, string> := map[
    "yaml" := "https://github.com/go-yaml/yaml",
    "check" := "https://github.com/go-check/check",
    "inf" := "https://github.com/go-inf/inf",
    "tomb" := "https://github.com/go-tomb/tomb",
    "fsnotify" := "https://github.com/fsnotify/fsnotify"
  ]

  const GoogleMappings: map<string, string> := map[
    "protobuf" := "https://github.com/protocolbuffers/protobuf-go",
    "grpc" := "https://github.com/grpc/grpc-go",
    "genproto" := "https://github.com/googleapis/go-genproto",
    "api" := "https://github.com/googleapis/google-api-go-client"
  ]

  /** `.v` and a digit at `k`, with at least one character before. */
  predicate VersionMarkAt(seg: string, k: int) {
    1 <= k && k + 3 <= |seg| && seg[k] == '.' && seg[k + 1] == 'v' && IsDigit(seg[k + 2])
  }

  /** The last version mark at or before `k`. */
  function LastVersionMark(seg: string, k: int): (r: Option<nat>)
    decreases k
    ensures r.Some? ==> VersionMarkAt(seg, r.value) && r.value <= k && forall i :: r.value < i <= k ==> !VersionMarkAt(seg, i)
    ensures r.None? ==> forall i :: i <= k ==> !VersionMarkAt(seg, i)
  {
    if k < 1 then None
    else if VersionMarkAt(seg, k) then Some(k)
    else LastVersionMark(seg, k - 1)
  }

  /**
   * The package group of the gopkg.in pattern (`gopkg.in/`, a run of
   * non-`/` characters, `.v` and a digit): the greedy run stays in the
   * first segment and backs off to its last `.v<digit>`.
   */
  function GopkgPackage(path: string): (r: Option<string>)
    requires StartsWith(path, "gopkg.in/")
  {
    var seg := Split(path[9..], '/')[0];
    match LastVersionMark(seg, |seg| - 3)
    case None => None
    case Some(k) => Some(seg[..k])
  }

  /** The repository URL and subpath guessed from a module path, by its host. */
  function DeriveRepo(modulePath: string): (r: Option<Repo>)
    ensures r.Some? ==> r.value.url != ""
    ensures (&& !StartsWith(modulePath, "github.com/") && !StartsWith(modulePath, "gitlab.com/")
             && !StartsWith(modulePath, "bitbucket.org/") && !StartsWith(modulePath, "gopkg.in/")
             && !StartsWith(modulePath, "google.golang.org/")) ==> r.None?
  {
    var parts := Split(modulePath, '/');
    if StartsWith(modulePath, "github.com/") then
      if |parts| >= 3 then
        Some(Repo("https://github.com/" + parts[1] + "/" + parts[2], if |parts| > 3 then Join(parts[3..], "/") else ""))
      else None
    else if StartsWith(modulePath, "gitlab.com/") then
      if |parts| >= 3 then Some(Repo("https://gitlab.com/" + parts[1] + "/" + parts[2], "")) else None
    else if StartsWith(modulePath, "bitbucket.org/") then
      if |parts| >= 3 then Some(Repo("https://bitbucket.org/" + parts[1] + "/" + parts[2], "")) else None
    else if StartsWith(modulePath, "gopkg.in/") then
      match GopkgPackage(modulePath)
      case None => None
      case Some(pkg) =>
        Some(Repo(if pkg in GopkgMappings then GopkgMappings[pkg] else "https://github.com/go-" + pkg + "/" + pkg, ""))
    else if StartsWith(modulePath, "google.golang.org/") then
      if |parts| >= 2 then
        var pkg := parts[1];
        Some(Repo(if pkg in GoogleMappings then GoogleMappings[pkg] else "https://github.com/golang/" + pkg,
                  if |parts| > 2 then Join(parts[2..], "/") else ""))
      else None
    else None
  }

  /** A string whose `i`-th character differs from the prefix's does not start with it. */
  lemma NotPrefixAt(s: string, prefix: string, i: nat)
    requires i < |prefix| && i < |s| && s[i] != prefix[i]
    ensures !StartsWith(s, prefix)
  {
    if |prefix| <= |s| {
      assert s[..|prefix|][i] == s[i];
    }
  }

  /** The components of `<host>/<owner>/<repo>/<rest>`. */
  lemma HostPathParts(host: string, owner: string, repo: string, rest: string)
    requires '/' !in host && '/' !in owner && '/' !in repo
    ensures Split(host + "/" + owner + "/" + repo + "/" + rest, '/') == [host, owner, repo] + Split(rest, '/')
  {
    var t3 := repo + ['/'] + rest;
    SplitCons(repo, '/', rest);
    var t2 := owner + ['/'] + t3;
    SplitCons(owner, '/', t3);
    var t1 := host + ['/'] + t2;
    SplitCons(host, '/', t2);
    assert host + "/" + owner + "/" + repo + "/" + rest == t1;
    assert [host] + ([owner] + ([repo] + Split(rest, '/'))) == [host, owner, repo] + Split(rest, '/');
  }

  /** The components of `<host>/<owner>/<repo>`. */
  lemma HostRepoParts(host: string, owner: string, repo: string)
    requires '/' !in host && '/' !in owner && '/' !in repo
    ensures Split(host + "/" + owner + "/" + repo, '/') == [host, owner, repo]
  {
    SplitNoSep(repo, '/');
    var t2 := owner + ['/'] + repo;
    SplitCons(owner, '/', repo);
    SplitCons(host, '/', t2);
    assert host + "/" + owner + "/" + repo == host + ['/'] + t2;
  }

  /**
   * `github.com/<owner>/<repo>` is its GitHub repository, and any further
   * components become the subpath.
   */
  lemma GithubRepo(owner: string, repo: string, sub: string)
    requires '/' !in owner && '/' !in repo
    ensures DeriveRepo("github.com/" + owner + "/" + repo) == Some(Repo("https://github.com/" + owner + "/" + repo, ""))
    ensures DeriveRepo("github.com/" + owner + "/" + repo + "/" + sub) == Some(Repo("https://github.com/" + owner + "/" + repo, sub))
  {
    HostRepoParts("github.com", owner, repo);
    HostPathParts("github.com", owner, repo, sub);
    JoinSplit(sub, '/');
    var p := "github.com/" + owner + "/" + repo;
    assert p == "github.com" + "/" + owner + "/" + repo;
    assert p[..11] == "github.com/";
    var q := "github.com/" + owner + "/" + repo + "/" + sub;
    assert q == "github.com" + "/" + owner + "/" + repo + "/" + sub;
    assert q[..11] == "github.com/";
    var parts := Split(q, '/');
    assert parts[3..] == Split(sub, '/');
  }

  /** `gitlab.com/<owner>/<repo>`, with or without further components, is that GitLab repository, with no subpath. */
  lemma GitlabRepo(owner: string, repo: string, rest: string)
    requires '/' !in owner && '/' !in repo
    ensures DeriveRepo("gitlab.com/" + owner + "/" + repo) == Some(Repo("https://gitlab.com/" + owner + "/" + repo, ""))
    ensures DeriveRepo("gitlab.com/" + owner + "/" + repo + "/" + rest) == Some(Repo("https://gitlab.com/" + owner + "/" + repo, ""))
  {
    HostRepoParts("gitlab.com", owner, repo);
    var q := "gitlab.com/" + owner + "/" + repo;
    assert q == "gitlab.com" + "/" + owner + "/" + repo;
    assert q[..11] == "gitlab.com/";
    NotPrefixAt(q, "github.com/", 3);
    HostPathParts("gitlab.com", owner, repo, rest);
    var p := "gitlab.com/" + owner + "/" + repo + "/" + rest;
    assert p == "gitlab.com" + "/" + owner + "/" + repo + "/" + rest;
    assert p[..11] == "gitlab.com/";
    NotPrefixAt(p, "github.com/", 3);
  }

  /** `bitbucket.org/<owner>/<repo>`, with or without further components, is that Bitbucket repository, with no subpath. */
  lemma BitbucketRepo(owner: string, repo: string, rest: string)
    requires '/' !in owner && '/' !in repo
    ensures DeriveRepo("bitbucket.org/" + owner + "/" + repo) == Some(Repo("https://bitbucket.org/" + owner + "/" + repo, ""))
    ensures DeriveRepo("bitbucket.org/" + owner + "/" + repo + "/" + rest) == Some(Repo("https://bitbucket.org/" + owner + "/" + repo, ""))
  {
    HostRepoParts("bitbucket.org", owner, repo);
    var q := "bitbucket.org/" + owner + "/" + repo;
    assert q == "bitbucket.org" + "/" + owner + "/" + repo;
    assert q[..14] == "bitbucket.org/";
    NotPrefixAt(q, "github.com/", 0);
    NotPrefixAt(q, "gitlab.com/", 0);
    HostPathParts("bitbucket.org", owner, repo, rest);
    var p := "bitbucket.org/" + owner + "/" + repo + "/" + rest;
    assert p == "bitbucket.org" + "/" + owner + "/" + repo + "/" + rest;
    assert p[..14] == "bitbucket.org/";
    NotPrefixAt(p, "github.com/", 0);
    NotPrefixAt(p, "gitlab.com/", 0);
  }

  /** The version mark after a package name without `.` is the one right after it. */
  lemma LastMarkOfPackage(pkg: string, digits: string)
    requires |pkg| >= 1 && |digits| >= 1 && AllDigits(digits)
    ensures LastVersionMark(pkg + ".v" + digits, |pkg + ".v" + digits| - 3) == Some(|pkg|)
  {
    var seg := pkg + ".v" + digits;
    assert VersionMarkAt(seg, |pkg|) by {
      assert seg[|pkg|] == '.' && seg[|pkg| + 1] == 'v' && seg[|pkg| + 2] == digits[0];
    }
    forall i | |pkg| < i <= |seg| - 3 ensures !VersionMarkAt(seg, i) {
      if i == |pkg| + 1 {
        assert seg[i] == 'v';
      } else {
        assert seg[i] == digits[i - |pkg| - 2];
      }
    }
  }

  /**
   * `gopkg.in/<pkg>.v<N>` (with anything after a `/`) maps through the
   * fixed table, or else to `github.com/go-<pkg>/<pkg>`, with no subpath.
   */
  lemma GopkgRepo(pkg: string, digits: string, rest: string)
    requires |pkg| >= 1 && '/' !in pkg && |digits| >= 1 && AllDigits(digits)
    ensures var url := if pkg in GopkgMappings then GopkgMappings[pkg] else "https://github.com/go-" + pkg + "/" + pkg;
      && DeriveRepo("gopkg.in/" + (pkg + ".v" + digits)) == Some(Repo(url, ""))
      && DeriveRepo("gopkg.in/" + (pkg + ".v" + digits + "/" + rest)) == Some(Repo(url, ""))
  {
    var seg := pkg + ".v" + digits;
    assert '/' !in seg by {
      assert forall i :: 0 <= i < |digits| ==> IsDigit(digits[i]);
    }
    LastMarkOfPackage(pkg, digits);
    assert seg[..|pkg|] == pkg;
    SplitNoSep(seg, '/');
    SplitCons(seg, '/', rest);
    GopkgPath(seg, seg);
    GopkgPath(seg, seg + ['/'] + rest);
  }

  /** A `gopkg.in/` path reaches the `gopkg.in` branch, its first segment `seg`. */
  lemma GopkgPath(seg: string, tail: string)
    requires Split(tail, '/')[0] == seg
    ensures var p := "gopkg.in/" + tail;
      && StartsWith(p, "gopkg.in/") && p[9..] == tail
      && !StartsWith(p, "github.com/") && !StartsWith(p, "gitlab.com/") && !StartsWith(p, "bitbucket.org/")
  {
    var p := "gopkg.in/" + tail;
    assert p[..9] == "gopkg.in/";
    assert p[9..] == tail;
    NotPrefixAt(p, "github.com/", 1);
    NotPrefixAt(p, "gitlab.com/", 1);
    NotPrefixAt(p, "bitbucket.org/", 0);
  }

  /**
   * `google.golang.org/<pkg>` maps through the fixed table, or else to
   * `github.com/golang/<pkg>`; what follows the package becomes the
   * subpath.
   */
  lemma GoogleRepo(pkg: string, sub: string)
    requires '/' !in pkg
    ensures var url := if pkg in GoogleMappings then GoogleMappings[pkg] else "https://github.com/golang/" + pkg;
      && DeriveRepo("google.golang.org/" + pkg) == Some(Repo(url, ""))
      && DeriveRepo("google.golang.org/" + (pkg + "/" + sub)) == Some(Repo(url, sub))
  {
    GooglePath(pkg);
    GooglePath(pkg + "/" + sub);
    SplitNoSep(pkg, '/');
    SplitCons("google.golang.org", '/', pkg);
    SplitCons(pkg, '/', sub);
    SplitCons("google.golang.org", '/', pkg + "/" + sub);
    JoinSplit(sub, '/');
    var q := "google.golang.org/" + (pkg + "/" + sub);
    var parts := Split(q, '/');
    assert parts == ["google.golang.org"] + ([pkg] + Split(sub, '/'));
    DropTwo("google.golang.org", pkg, Split(sub, '/'));
    assert |parts| > 2 && parts[1] == pkg;
  }

  lemma DropTwo<T>(x: T, y: T, xs: seq<T>)
    ensures ([x] + ([y] + xs))[2..] == xs
  {
    assert ([x] + ([y] + xs))[2..] == ([y] + xs)[1..];
  }

  /** A `google.golang.org/` path reaches the `google.golang.org` branch. */
  lemma GooglePath(tail: string)
    ensures var p := "google.golang.org/" + tail;
      && p == "google.golang.org" + ['/'] + tail
      && StartsWith(p, "google.golang.org/") && !StartsWith(p, "gopkg.in/")
      && !StartsWith(p, "github.com/") && !StartsWith(p, "gitlab.com/") && !StartsWith(p, "bitbucket.org/")
  {
    var p := "google.golang.org/" + tail;
    assert p[..18] == "google.golang.org/";
    NotPrefixAt(p, "github.com/", 1);
    NotPrefixAt(p, "gitlab.com/", 1);
    NotPrefixAt(p, "bitbucket.org/", 0);
    NotPrefixAt(p, "gopkg.in/", 2);
  }

  // ---------------------------------------------------------------------------
  // Commit from the version
  // ---------------------------------------------------------------------------

  const Incompatible: string := "+incompatible"

  /**
   * The hash group of the pseudo-version pattern:
   * the version ends (before an optional final newline) in `-`, fourteen
   * digits, `-` and twelve lower-case hex digits, with `-` or `-0.` before
   * the digits.
   */
  function PseudoHash(v: string): (r: Option<string>)
    ensures r.Some? ==> |r.value| == 12 && AllLowerHex(r.value)
  {
    var body := if |v| > 0 && v[|v| - 1] == '\n' then v[..|v| - 1] else v;
    var n := |body|;
    if n >= 28 && AllLowerHex(body[n - 12..]) && body[n - 13] == '-' && AllDigits(body[n - 27..n - 13])
       && (body[n - 28] == '-' || (n >= 30 && body[n - 30..n - 27] == "-0."))
    then Some(body[n - 12..])
    else None
  }

  /** The VCS fields derived for a module. */
  datatype VcsInfo = VcsInfo(vcsUrl: string, vcsHash: string, vcsRef: string, subdir: string)

  /** The tag a tagged version is looked up under: prefixed with the subpath in a multi-module repository. */
  function TagRef(subpath: string, clean: string): (ref: string)
    ensures StartsWith(ref, TagsPrefix)
  {
    var ref := TagsPrefix + (if subpath != "" then subpath + "/" + clean else clean);
    assert ref[..10] == TagsPrefix;
    ref
  }

  /**
   * `derive_vcs_info`: `None` when the host is not recognised. A
   * pseudo-version gives its 12-character hash and no ref; a tagged
   * version is resolved with `git ls-remote`, falling back to the tag
   * without the subpath prefix.
   */
  function DeriveVcsInfo(modulePath: string, version: string, run: Runner): (r: Option<VcsInfo>)
    ensures r.Some? <==> DeriveRepo(modulePath).Some?
  {
    match DeriveRepo(modulePath)
    case None => None
    case Some(repo) =>
      var clean := RemoveAll(version, Incompatible);
      match PseudoHash(clean)
      case Some(h) => Some(VcsInfo(repo.url, h, "", repo.subpath))
      case None =>
        var tagRef := TagRef(repo.subpath, clean);
        var hash := LsRemote(repo.url, tagRef, run);
        if hash == "" && repo.subpath != "" then
          var fallback := TagsPrefix + clean;
          var hash2 := LsRemote(repo.url, fallback, run);
          Some(VcsInfo(repo.url, hash2, if hash2 != "" then fallback else tagRef, repo.subpath))
        else Some(VcsInfo(repo.url, hash, tagRef, repo.subpath))
  }

  /** The layout of a pseudo-version: `-` or `-0.` before fourteen digits, `-`, twelve hex digits. */
  lemma PseudoHashOf(base: string, mid: string, stamp: string, hash: string)
    requires mid == "-" || mid == "-0."
    requires |stamp| == 14 && AllDigits(stamp) && |hash| == 12 && AllLowerHex(hash)
    ensures PseudoHash(base + mid + stamp + "-" + hash) == Some(hash)
  {
    var v := base + mid + stamp + "-" + hash;
    var n := |v|;
    assert v[n - 1] == hash[11];
    assert v[n - 12..] == hash;
    assert v[n - 13] == '-';
    assert v[n - 27..n - 13] == stamp;
    if mid == "-" {
      assert v[n - 28] == '-';
    } else {
      assert v[n - 30..n - 27] == mid;
    }
  }

  /**
   * A pseudo-version (with or without `+incompatible`) of a recognised
   * module gives the 12-character hash it ends in and an empty ref, and
   * no lookup is made: the result is the same whatever `git ls-remote`
   * would answer.
   */
  lemma PseudoVersionInfo(modulePath: string, base: string, mid: string, stamp: string, hash: string, suffix: string, run: Runner)
    requires DeriveRepo(modulePath).Some?
    requires '+' !in base && (mid == "-" || mid == "-0.") && (suffix == "" || suffix == Incompatible)
    requires |stamp| == 14 && AllDigits(stamp) && |hash| == 12 && AllLowerHex(hash)
    ensures var repo := DeriveRepo(modulePath).value;
      DeriveVcsInfo(modulePath, base + mid + stamp + "-" + hash + suffix, run) == Some(VcsInfo(repo.url, hash, "", repo.subpath))
  {
    var v := base + mid + stamp + "-" + hash;
    assert '+' !in v by {
      assert forall i :: 0 <= i < |stamp| ==> IsDigit(stamp[i]);
      assert forall i :: 0 <= i < |hash| ==> IsLowerHexDigit(hash[i]);
    }
    RemoveAllAbsent(v, Incompatible);
    PseudoHashOf(base, mid, stamp, hash);
    var version := base + mid + stamp + "-" + hash + suffix;
    assert version == v + suffix;
    assert RemoveAll(version, Incompatible) == v by {
      if suffix == "" {
        assert version == v;
      }
    }
  }

  /**
   * A tagged version of a recognised module records a ref and the hash
   * `git ls-remote` gives for that very ref. The ref is the tag prefixed
   * with the subpath, unless that one resolves to nothing, a subpath
   * exists, and the unprefixed tag does resolve: only then is the
   * unprefixed tag recorded.
   */
  lemma TaggedVersionInfo(modulePath: string, version: string, run: Runner)
    requires DeriveRepo(modulePath).Some?
    requires PseudoHash(RemoveAll(version, Incompatible)).None?
    ensures var repo := DeriveRepo(modulePath).value;
      var clean := RemoveAll(version, Incompatible);
      var primary := TagRef(repo.subpath, clean);
      var fallback := TagsPrefix + clean;
      var info := DeriveVcsInfo(modulePath, version, run).value;
      && info.vcsUrl == repo.url && info.subdir == repo.subpath
      && info.vcsHash == LsRemote(repo.url, info.vcsRef, run)
      && (info.vcsRef == primary || info.vcsRef == fallback)
      && (info.vcsRef != primary ==> repo.subpath != "" && LsRemote(repo.url, primary, run) == "" && info.vcsHash != "")
      && (repo.subpath != "" && LsRemote(repo.url, primary, run) == "" && LsRemote(repo.url, fallback, run) != "" ==> info.vcsRef == fallback)
  {
  }

  // ---------------------------------------------------------------------------
  // Walking the cache
  // ---------------------------------------------------------------------------

  /** The `Origin` fields of an `.info` file, `''` for an absent key. */
  datatype Origin = Origin(url: string, hash: string, ref: string, subdir: string)

  /** The parts of an `.info` file read: its `Origin` (all `''` without one) and its `Time`. */
  datatype Info = Info(origin: Origin, time: string)

  /**
   * An `.info` file: the components of its directory below
   * `cache/download`, its name without `.info` (the version), and its
   * contents, `None` when it could not be read or parsed.
   */
  datatype InfoFile = InfoFile(dirParts: seq<string>, version: string, info: Option<Info>)

  /** One entry of `modules.json`. */
  datatype ModuleRecord = ModuleRecord(
    modulePath: string, version: string, vcsUrl: string, vcsHash: string, vcsRef: string, subdir: string, timestamp: string)

  /** The extracted modules and the counters the summary reports. */
  datatype Extraction = Extraction(modules: seq<ModuleRecord>, derived: nat, skipped: nat, total: nat)

  /** The file sits in a version directory `@v`. */
  predicate AtVersionDir(f: InfoFile) {
    |f.dirParts| > 0 && f.dirParts[|f.dirParts| - 1] == "@v"
  }

  /** The module path: the components before `@v`, joined and case-decoded. */
  function ModulePathOf(dirParts: seq<string>): (path: string)
    requires |dirParts| > 0
  {
    Unescape(Join(dirParts[..|dirParts| - 1], "/"))
  }

  /** The proxy recorded both a URL and a hash. */
  predicate HasOrigin(f: InfoFile) {
    f.info.Some? && f.info.value.origin.url != "" && f.info.value.origin.hash != ""
  }

  /** `m` is the record the file `f` yields: from its origin when complete, else derived. */
  predicate RecordOf(f: InfoFile, m: ModuleRecord, run: Runner) {
    && AtVersionDir(f) && f.info.Some?
    && m.modulePath == ModulePathOf(f.dirParts) && m.version == f.version && m.timestamp == f.info.value.time
    && (if HasOrigin(f) then
          var o := f.info.value.origin;
          m.vcsUrl == o.url && m.vcsHash == o.hash && m.vcsRef == o.ref && m.subdir == o.subdir
        else DeriveVcsInfo(m.modulePath, f.version, run) == Some(VcsInfo(m.vcsUrl, m.vcsHash, m.vcsRef, m.subdir)))
  }

  /**
   * What one file contributes; `None` when its directory is `cache/download`
   * itself, where taking the last component raises.
   */
  function ExtractStep(acc: Extraction, f: InfoFile, run: Runner): (r: Option<Extraction>)
    ensures r.Some? <==> |f.dirParts| > 0
    ensures r.Some? ==> acc.modules <= r.value.modules && |r.value.modules| <= |acc.modules| + 1
    ensures r.Some? && |r.value.modules| > |acc.modules| ==> RecordOf(f, r.value.modules[|acc.modules|], run)
  {
    if |f.dirParts| == 0 then None
    else if f.dirParts[|f.dirParts| - 1] != "@v" then Some(acc.(total := acc.total + 1))
    else if f.info.None? then Some(acc.(skipped := acc.skipped + 1, total := acc.total + 1))
    else
      var path := ModulePathOf(f.dirParts);
      var info := f.info.value;
      if info.origin.url != "" && info.origin.hash != "" then
        var m := ModuleRecord(path, f.version, info.origin.url, info.origin.hash, info.origin.ref, info.origin.subdir, info.time);
        Some(acc.(modules := acc.modules + [m], total := acc.total + 1))
      else match DeriveVcsInfo(path, f.version, run)
        case Some(d) =>
          var m := ModuleRecord(path, f.version, d.vcsUrl, d.vcsHash, d.vcsRef, d.subdir, info.time);
          Some(acc.(modules := acc.modules + [m], derived := acc.derived + 1, total := acc.total + 1))
        case None => Some(acc.(skipped := acc.skipped + 1, total := acc.total + 1))
  }

  /** The extraction over the files in walk order. */
  function ExtractAll(files: seq<InfoFile>, run: Runner): (r: Option<Extraction>)
  {
    if |files| == 0 then Some(Extraction([], 0, 0, 0))
    else match ExtractAll(files[..|files| - 1], run)
      case None => None
      case Some(acc) => ExtractStep(acc, files[|files| - 1], run)
  }

  /** Once a file raises, so does the whole walk. */
  lemma {:induction false} ExtractAbort(files: seq<InfoFile>, k: nat, run: Runner)
    requires k <= |files| && ExtractAll(files[..k], run).None?
    ensures ExtractAll(files, run).None?
    decreases |files| - k
  {
    if k < |files| {
      assert files[..k + 1][..k] == files[..k];
      ExtractAbort(files, k + 1, run);
    } else {
      assert files[..k] == files;
    }
  }

  /** The files in a version directory. */
  function CountAtVersionDir(files: seq<InfoFile>): (n: nat)
    ensures n <= |files|
  {
    if |files| == 0 then 0
    else CountAtVersionDir(files[..|files| - 1]) + (if AtVersionDir(files[|files| - 1]) then 1 else 0)
  }

  /** The files in a version directory whose proxy origin is complete. */
  function CountWithOrigin(files: seq<InfoFile>): (n: nat)
    ensures n <= |files|
  {
    if |files| == 0 then 0
    else CountWithOrigin(files[..|files| - 1]) + (if AtVersionDir(files[|files| - 1]) && HasOrigin(files[|files| - 1]) then 1 else 0)
  }

  /** What one file adds to each counter. */
  lemma StepCounts(acc: Extraction, f: InfoFile, run: Runner)
    requires |f.dirParts| > 0
    ensures var e := ExtractStep(acc, f, run).value;
      && e.total == acc.total + 1
      && |e.modules| + e.skipped == |acc.modules| + acc.skipped + (if AtVersionDir(f) then 1 else 0)
      && |e.modules| == |acc.modules| + (e.derived - acc.derived) + (if AtVersionDir(f) && HasOrigin(f) then 1 else 0)
  {
  }

  /** The walk raises exactly when some file lies directly in `cache/download`. */
  lemma {:induction false} ExtractFails(files: seq<InfoFile>, run: Runner)
    ensures ExtractAll(files, run).None? <==> exists i :: 0 <= i < |files| && |files[i].dirParts| == 0
  {
    if |files| > 0 {
      var init := files[..|files| - 1];
      ExtractFails(init, run);
      if ExtractAll(init, run).None? {
        var i :| 0 <= i < |init| && |init[i].dirParts| == 0;
        assert files[i] == init[i];
      }
      if exists i :: 0 <= i < |files| && |files[i].dirParts| == 0 {
        var i :| 0 <= i < |files| && |files[i].dirParts| == 0;
        if i < |init| {
          assert files[i] == init[i];
        }
      }
    }
  }

  /**
   * When the walk completes, every file is counted, every file in a
   * version directory gives one module or one skip, and the modules are
   * those with a complete origin plus the derived ones.
   */
  lemma {:induction false} ExtractCounts(files: seq<InfoFile>, run: Runner)
    ensures ExtractAll(files, run).Some? ==> var e := ExtractAll(files, run).value;
      && e.total == |files|
      && |e.modules| + e.skipped == CountAtVersionDir(files)
      && |e.modules| == CountWithOrigin(files) + e.derived
  {
    if |files| > 0 && ExtractAll(files, run).Some? {
      var init := files[..|files| - 1];
      ExtractCounts(init, run);
      assert ExtractAll(init, run).Some?;
      StepCounts(ExtractAll(init, run).value, files[|files| - 1], run);
    }
  }

  /** Every extracted module is the record of one of the files, in walk order. */
  lemma {:induction false} ExtractProvenance(files: seq<InfoFile>, run: Runner)
    ensures ExtractAll(files, run).Some? ==> var ms := ExtractAll(files, run).value.modules;
      forall i :: 0 <= i < |ms| ==> exists j :: 0 <= j < |files| && RecordOf(files[j], ms[i], run)
  {
    if |files| > 0 {
      var init := files[..|files| - 1];
      ExtractProvenance(init, run);
      if ExtractAll(files, run).Some? {
        assert ExtractAll(init, run).Some?;
        var acc := ExtractAll(init, run).value;
        var last := files[|files| - 1];
        assert ExtractAll(files, run) == ExtractStep(acc, last, run);
        var ms := ExtractAll(files, run).value.modules;
        forall i | 0 <= i < |ms| ensures exists j :: 0 <= j < |files| && RecordOf(files[j], ms[i], run) {
          if i < |acc.modules| {
            assert ms[i] == acc.modules[i];
            var m := acc.modules[i];
            assert exists j :: 0 <= j < |init| && RecordOf(init[j], m, run);
            var j :| 0 <= j < |init| && RecordOf(init[j], m, run);
            assert files[j] == init[j];
          } else {
            assert RecordOf(last, ms[i], run);
          }
        }
      }
    }
  }

  /** The cache directory of a module (its escaped path, then `@v`) decodes to the module path. */
  lemma CacheDirDecodes(path: string)
    requires '!' !in path
    ensures ModulePathOf(Split(Escape(path), '/') + ["@v"]) == path
  {
    var parts := Split(Escape(path), '/');
    assert (parts + ["@v"])[..|parts|] == parts;
    JoinSplit(Escape(path), '/');
    UnescapeEscape(path);
  }

  /** `extract_modules` over the `.info` files found by the walk. */
  method ExtractModulesFrom(files: seq<InfoFile>, run: Runner) returns (r: Option<Extraction>)
    ensures r == ExtractAll(files, run)
  {
    var modules: seq<ModuleRecord> := [];
    var skipped, derived, total := 0, 0, 0;
    var n := 0;
    while n < |files|
      invariant 0 <= n <= |files|
      invariant ExtractAll(files[..n], run) == Some(Extraction(modules, derived, skipped, total))
    {
      assert files[..n + 1][..n] == files[..n];
      var f := files[n];
      total := total + 1;
      if |f.dirParts| == 0 {
        ExtractAbort(files, n + 1, run);
        return None;
      }
      if f.dirParts[|f.dirParts| - 1] == "@v" {
        var modulePath := ModulePathOf(f.dirParts);
        if f.info.None? {
          skipped := skipped + 1;
        } else {
          var info := f.info.value;
          if info.origin.url != "" && info.origin.hash != "" {
            modules := modules + [ModuleRecord(modulePath, f.version, info.origin.url, info.origin.hash, info.origin.ref, info.origin.subdir, info.time)];
          } else {
            derived := derived + 1;
            var d := DeriveVcsInfo(modulePath, f.version, run);
            if d.Some? {
              modules := modules + [ModuleRecord(modulePath, f.version, d.value.vcsUrl, d.value.vcsHash, d.value.vcsRef, d.value.subdir, info.time)];
            } else {
              skipped := skipped + 1;
              derived := derived - 1;
            }
          }
        }
      }
      n := n + 1;
    }
    assert files[..|files|] == files;
    return Some(Extraction(modules, derived, skipped, total));
  }
}
