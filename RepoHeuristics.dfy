/**
 * How the fetcher guesses a repository from a module path when no
 * metadata says otherwise: the GitHub candidates for `gopkg.in` paths
 * (`_candidate_gopkg_repos`), the module's subdirectory inside a vanity
 * repository (`_recalculate_subdir_from_vanity`), and the default
 * `domain/org/repo` layout with a trailing `/vN` major-version element
 * left out of the subdirectory.
 */
module RepoHeuristics {
  import opened Wrappers
  import opened Strings
  import opened Collections

  const GopkgPrefix: string := "gopkg.in/"
  const GithubPrefix: string := "https://github.com/"

  // ---------------------------------------------------------------------------
  // gopkg.in
  // ---------------------------------------------------------------------------

  /** A character of the class `[.\w-]`. */
  predicate IsVersionTailChar(c: char) {
    c == '.' || c == '-' || IsWordChar(c)
  }

  /** A whole string matching `\.v\d+(?:[.\w-]*)?`, such as `.v2` or `.v3-unstable`. */
  predicate IsMajorTail(t: string) {
    && |t| >= 3 && t[0] == '.' && t[1] == 'v' && IsDigit(t[2])
    && forall k :: 3 <= k < |t| ==> IsVersionTailChar(t[k])
  }

  /** The pattern's tail matches from `i` to the end, or (`$`) up to a final newline. */
  predicate MajorTailAt(last: string, i: nat)
    requires i <= |last|
  {
    || IsMajorTail(last[i..])
    || (|last| > i && last[|last| - 1] == '\n' && IsMajorTail(last[i..|last| - 1]))
  }

  /**
   * The lazy name group of the gopkg.in element pattern (a name, `.v`,
   * digits, then only `.`, word characters and `-`), tried with `i`
   * characters and then more: the shortest non-empty,
   * newline-free prefix after which the rest of the pattern matches.
   */
  function GopkgNameFrom(last: string, i: nat): (r: Option<string>)
    requires 1 <= i <= |last| + 1 && '\n' !in last[..i - 1]
    decreases |last| - i
    ensures r.Some? ==> && i <= |r.value| < |last| && r.value == last[..|r.value|]
                        && '\n' !in r.value && MajorTailAt(last, |r.value|)
  {
    if i >= |last| || last[i - 1] == '\n' then None
    else if MajorTailAt(last, i) then
      assert last[..i] == last[..i - 1] + [last[i - 1]];
      Some(last[..i])
    else
      assert last[..i] == last[..i - 1] + [last[i - 1]];
      GopkgNameFrom(last, i + 1)
  }

  function GopkgName(last: string): (r: Option<string>)
    ensures r.Some? ==> && 1 <= |r.value| < |last| && r.value == last[..|r.value|]
                        && '\n' !in r.value && MajorTailAt(last, |r.value|)
  {
    GopkgNameFrom(last, 1)
  }

  /** A name without dots is followed by its major-version tail, and nothing shorter is. */
  lemma {:induction false} GopkgNameFromOf(name: string, tail: string, i: nat)
    requires 1 <= i <= |name| && '.' !in name && '\n' !in name && IsMajorTail(tail)
    ensures GopkgNameFrom(name + tail, i) == Some(name)
    decreases |name| - i
  {
    var last := name + tail;
    assert last[..i - 1] == name[..i - 1];
    assert last[i - 1] == name[i - 1];
    if i == |name| {
      assert last[i..] == tail;
      assert last[..i] == name;
    } else {
      assert last[i] == name[i] && last[i] != '.';
      assert !MajorTailAt(last, i) by {
        assert last[i..][0] == last[i];
        if |last| > i && last[|last| - 1] == '\n' && |last[i..|last| - 1]| > 0 {
          assert last[i..|last| - 1][0] == last[i];
        }
      }
      GopkgNameFromOf(name, tail, i + 1);
    }
  }

  lemma GopkgNameOf(name: string, tail: string)
    requires name != [] && '.' !in name && '\n' !in name && IsMajorTail(tail)
    ensures GopkgName(name + tail) == Some(name)
  {
    GopkgNameFromOf(name, tail, 1);
  }

  /** `c` replaced by `d` throughout (`str.replace` with single characters). */
  function ReplaceChar(s: string, c: char, d: char): (r: string)
    ensures |r| == |s|
    ensures forall k :: 0 <= k < |s| ==> r[k] == if s[k] == c then d else s[k]
  {
    if s == [] then [] else [if s[0] == c then d else s[0]] + ReplaceChar(s[1..], c, d)
  }

  /** Every `c` removed (`str.replace(c, '')`). */
  function RemoveChar(s: string, c: char): (r: string)
    ensures |r| <= |s| && c !in r
    ensures c !in s ==> r == s
  {
    if s == [] then [] else (if s[0] == c then [] else [s[0]]) + RemoveChar(s[1..], c)
  }

  lemma {:induction false} ReplaceAbsent(s: string, c: char, d: char)
    requires c !in s
    ensures ReplaceChar(s, c, d) == s
  {
  }

  function MapReplaceDot(segments: seq<string>): (r: seq<string>)
    ensures |r| == |segments|
  {
    if segments == [] then [] else [ReplaceChar(segments[0], '.', '-')] + MapReplaceDot(segments[1..])
  }

  function MapRemoveDot(segments: seq<string>): (r: seq<string>)
    ensures |r| == |segments|
  {
    if segments == [] then [] else [RemoveChar(segments[0], '.')] + MapRemoveDot(segments[1..])
  }

  /** Segments without dots are left alone by both fallbacks. */
  lemma {:induction false} MapDotFree(segments: seq<string>)
    requires forall k :: 0 <= k < |segments| ==> '.' !in segments[k]
    ensures MapReplaceDot(segments) == segments && MapRemoveDot(segments) == segments
  {
    if segments != [] {
      ReplaceAbsent(segments[0], '.', '-');
      MapDotFree(segments[1..]);
    }
  }

  /**
   * The owners to try: the given owner path and its two dot-free
   * spellings when there is one, otherwise the usual conventions for the
   * bare `gopkg.in/<name>.vN` form.
   */
  function OwnerVariants(ownerSegments: seq<string>, name: string): (r: seq<string>)
    ensures 1 <= |r| <= 3
  {
    if ownerSegments != [] then
      var canonical := Join(ownerSegments, "/");
      var hyphen := Join(MapReplaceDot(ownerSegments), "/");
      var dotless := Join(MapRemoveDot(ownerSegments), "/");
      var withHyphen := if hyphen != [] && hyphen !in [canonical] then [canonical, hyphen] else [canonical];
      if dotless != [] && dotless !in withHyphen then withHyphen + [dotless] else withHyphen
    else
      ["go-" + name, name, name + "-go"]
  }

  /** The GitHub URL of `owner/name`. */
  function GithubUrl(owner: string, name: string): (url: string)
    ensures StartsWith(url, GithubPrefix)
  {
    var url := GithubPrefix + owner + "/" + name;
    assert url[..|GithubPrefix|] == GithubPrefix;
    url
  }

  /** The GitHub URL for each owner that is not empty once its slashes are stripped. */
  function GithubUrls(owners: seq<string>, name: string): (r: seq<string>)
    ensures |r| <= |owners|
    ensures forall k :: 0 <= k < |r| ==> StartsWith(r[k], GithubPrefix)
  {
    if owners == [] then []
    else
      var init := GithubUrls(owners[..|owners| - 1], name);
      var owner := StripChar(owners[|owners| - 1], '/');
      if owner == [] then init
      else
        init + [GithubUrl(owner, name)]
  }

  /**
   * `_candidate_gopkg_repos`: nothing unless the path is `gopkg.in/...`
   * with a last element `<name>.vN...`; otherwise the distinct GitHub URLs
   * of the owner variants, in order.
   */
  function CandidateGopkgRepos(modulePath: string): (r: seq<string>)
  {
    if !StartsWith(modulePath, GopkgPrefix) then []
    else
      var remainder := modulePath[|GopkgPrefix|..];
      if remainder == [] then []
      else
        var parts := Split(remainder, '/');
        match GopkgName(parts[|parts| - 1])
        case None => []
        case Some(name) => Dedup(GithubUrls(OwnerVariants(parts[..|parts| - 1], name), name))
  }

  /**
   * The candidates are distinct GitHub URLs, at most three, and there are
   * none for a path outside `gopkg.in/`.
   */
  lemma CandidateGopkgReposSpec(modulePath: string)
    ensures var r := CandidateGopkgRepos(modulePath);
      && NoDuplicates(r) && |r| <= 3
      && (forall k :: 0 <= k < |r| ==> StartsWith(r[k], GithubPrefix))
      && (r != [] ==> StartsWith(modulePath, GopkgPrefix))
  {
    var r := CandidateGopkgRepos(modulePath);
    if r != [] {
      var parts := Split(modulePath[|GopkgPrefix|..], '/');
      var name := GopkgName(parts[|parts| - 1]).value;
      var urls := GithubUrls(OwnerVariants(parts[..|parts| - 1], name), name);
      DedupSpec(urls);
      forall k | 0 <= k < |r| ensures StartsWith(r[k], GithubPrefix) {
        assert r[k] in urls;
      }
    }
  }

  /** Owners without slashes are used as they are, one URL each. */
  lemma {:induction false} GithubUrlsOfPlainOwners(owners: seq<string>, name: string)
    requires forall k :: 0 <= k < |owners| ==> owners[k] != [] && '/' !in owners[k]
    ensures |GithubUrls(owners, name)| == |owners|
    ensures forall k :: 0 <= k < |owners| ==> GithubUrls(owners, name)[k] == GithubUrl(owners[k], name)
  {
    if owners != [] {
      var init := owners[..|owners| - 1];
      GithubUrlsOfPlainOwners(init, name);
      var last := owners[|owners| - 1];
      assert last[0] != '/' && last[|last| - 1] != '/';
      StripCharNone(last, '/');
    }
  }

  /** The characters of a major-version tail include no `/`. */
  lemma MajorTailSlashFree(tail: string)
    requires IsMajorTail(tail)
    ensures '/' !in tail
  {
    forall k | 0 <= k < |tail| ensures tail[k] != '/' {
      if k >= 3 { assert IsVersionTailChar(tail[k]); }
    }
  }

  /** Dot-free names and owners split off a `gopkg.in/` path as expected. */
  lemma GopkgPath(owners: seq<string>, name: string, tail: string)
    requires name != [] && '.' !in name && '/' !in name && '\n' !in name && IsMajorTail(tail)
    requires forall k :: 0 <= k < |owners| ==> '/' !in owners[k]
    ensures CandidateGopkgRepos(GopkgPrefix + Join(owners + [name + tail], "/"))
      == Dedup(GithubUrls(OwnerVariants(owners, name), name))
  {
    var parts := owners + [name + tail];
    var remainder := Join(parts, "/");
    var m := GopkgPrefix + remainder;
    assert parts[..|owners|] == owners && parts[|owners|] == name + tail;
    MajorTailSlashFree(tail);
    SplitJoin(parts, '/');
    GopkgNameOf(name, tail);
    assert remainder != [] by {
      if owners != [] {
        JoinSnoc(owners, name + tail, "/");
      }
    }
    assert m[..|GopkgPrefix|] == GopkgPrefix && m[|GopkgPrefix|..] == remainder;
  }

  /** De-duplicating three entries whose neighbours differ drops only a repeat of the first. */
  lemma DedupThree(s: seq<string>)
    requires |s| == 3 && s[0] != s[1] && s[1] != s[2]
    ensures Dedup(s) == s[..2] + (if s[2] == s[0] then [] else [s[2]])
  {
    assert s[..1] == [] + [s[0]];
    DedupSnoc([], s[0]);
    assert s[..2] == s[..1] + [s[1]];
    DedupSnoc(s[..1], s[1]);
    assert s == s[..2] + [s[2]];
    DedupSnoc(s[..2], s[2]);
  }

  /** The URLs of the three conventional owners of a bare name. */
  lemma ConventionalOwnerUrls(name: string)
    requires name != [] && '/' !in name
    ensures var r := GithubUrls(OwnerVariants([], name), name);
      && |r| == 3 && r[0] == GithubUrl("go-" + name, name) && r[1] == GithubUrl(name, name)
      && r[2] == GithubUrl(name + "-go", name)
  {
    var owners := OwnerVariants([], name);
    GithubUrlsOfPlainOwners(owners, name);
    assert owners[1] == name;
  }

  /** A bare `gopkg.in/<name>.vN` path is tried under `go-<name>`, `<name>` and `<name>-go`. */
  lemma GopkgReposOfName(name: string, tail: string)
    requires name != [] && '.' !in name && '/' !in name && '\n' !in name && IsMajorTail(tail)
    ensures var r := CandidateGopkgRepos(GopkgPrefix + (name + tail));
      var a, b, c := GithubUrl("go-" + name, name), GithubUrl(name, name), GithubUrl(name + "-go", name);
      && |r| == (if c == a then 2 else 3) && r[0] == a && r[1] == b && (c != a ==> r[2] == c)
  {
    assert Join([] + [name + tail], "/") == name + tail;
    ConventionalOwnerUrls(name);
    var urls := GithubUrls(OwnerVariants([], name), name);
    assert |urls[0]| != |urls[1]| && |urls[1]| != |urls[2]|;
    DedupThree(urls);
    GopkgPath([], name, tail);
  }

  /** A `gopkg.in/<owner>/<name>.vN` path with a dot-free owner has exactly one candidate. */
  lemma GopkgReposOfOwner(owner: string, name: string, tail: string)
    requires owner != [] && '.' !in owner && '/' !in owner
    requires name != [] && '.' !in name && '/' !in name && '\n' !in name && IsMajorTail(tail)
    ensures CandidateGopkgRepos(GopkgPrefix + (owner + "/" + (name + tail))) == [GithubUrl(owner, name)]
  {
    assert Join([owner] + [name + tail], "/") == owner + "/" + (name + tail);
    GopkgPath([owner], name, tail);
    MapDotFree([owner]);
    assert OwnerVariants([owner], name) == [owner];
    GithubUrlsOfPlainOwners([owner], name);
    DedupSnoc([], GithubUrl(owner, name));
  }

  /** Stripping a character that is not at either end changes nothing. */
  lemma StripCharNone(s: string, c: char)
    requires s != [] && s[0] != c && s[|s| - 1] != c
    ensures StripChar(s, c) == s
  {
  }

  // ---------------------------------------------------------------------------
  // Subdirectories
  // ---------------------------------------------------------------------------

  /** A major-version element such as `v2` or `v11`: `v` and at least one digit. */
  predicate IsMajorSuffix(s: string) {
    |s| >= 2 && s[0] == 'v' && AllDigits(s[1..])
  }

  /** The subdirectory elements without a trailing major-version element. */
  function DropMajorSuffix(parts: seq<string>): (r: seq<string>)
    ensures r == parts || (parts != [] && IsMajorSuffix(parts[|parts| - 1]) && r == parts[..|parts| - 1])
  {
    if parts != [] && IsMajorSuffix(parts[|parts| - 1]) then parts[..|parts| - 1] else parts
  }

  /** The first three elements joined with `/`: the repository of the default `domain/org/repo` layout. */
  function BaseRepo(parts: seq<string>): (r: string)
  {
    Join(parts[..if |parts| < 3 then |parts| else 3], "/")
  }

  /** The subdirectory of the default layout: the elements after the third, minus a major version. */
  function DefaultSubdir(parts: seq<string>): (r: string)
  {
    if |parts| > 3 then Join(DropMajorSuffix(parts[3..]), "/") else ""
  }

  /** The default layout of a list of path elements, joined with `/`. */
  lemma LayoutOfParts(parts: seq<string>)
    ensures |parts| <= 3 ==> BaseRepo(parts) == Join(parts, "/") && DefaultSubdir(parts) == ""
    ensures |parts| > 3 && !IsMajorSuffix(parts[|parts| - 1]) ==>
      BaseRepo(parts) + "/" + DefaultSubdir(parts) == Join(parts, "/")
  {
    if |parts| <= 3 {
      assert parts[..|parts|] == parts;
    } else {
      assert parts == parts[..3] + parts[3..];
      JoinAppend(parts[..3], parts[3..], "/");
    }
  }

  /** The default layout of more than four elements ending in a major version. */
  lemma LayoutOfLongVersionedParts(parts: seq<string>)
    requires |parts| > 4 && IsMajorSuffix(parts[|parts| - 1])
    ensures BaseRepo(parts) + "/" + DefaultSubdir(parts) + "/" + parts[|parts| - 1] == Join(parts, "/")
  {
    var sub := parts[3..];
    var front := sub[..|sub| - 1];
    var c := parts[|parts| - 1];
    assert sub == front + [c];
    assert parts == parts[..3] + (front + [c]);
    assert DropMajorSuffix(sub) == front;
    JoinThreePieces(parts[..3], front, c, "/");
  }

  /** With a major-version element at the end, it is what the default layout leaves out. */
  lemma LayoutOfVersionedParts(parts: seq<string>)
    requires |parts| > 3 && IsMajorSuffix(parts[|parts| - 1])
    ensures |parts| == 4 ==> DefaultSubdir(parts) == "" && BaseRepo(parts) + "/" + parts[3] == Join(parts, "/")
    ensures |parts| > 4 ==>
      BaseRepo(parts) + "/" + DefaultSubdir(parts) + "/" + parts[|parts| - 1] == Join(parts, "/")
  {
    if |parts| > 4 {
      LayoutOfLongVersionedParts(parts);
    } else {
      var sub := parts[3..];
      assert sub == [parts[3]];
      assert parts == parts[..3] + sub;
      assert DropMajorSuffix(sub) == [];
      assert BaseRepo(parts) == Join(parts[..3], "/");
      JoinAppend(parts[..3], sub, "/");
    }
  }

  /**
   * Repository, subdirectory and major version put back together give the
   * module path: the default layout loses nothing but the separators.
   */
  lemma DefaultLayout(modulePath: string)
    ensures var parts := Split(modulePath, '/');
      && (|parts| <= 3 ==> BaseRepo(parts) == modulePath && DefaultSubdir(parts) == "")
      && (|parts| > 3 && !IsMajorSuffix(parts[|parts| - 1]) ==>
            BaseRepo(parts) + "/" + DefaultSubdir(parts) == modulePath)
      && (|parts| == 4 && IsMajorSuffix(parts[3]) ==>
            DefaultSubdir(parts) == "" && BaseRepo(parts) + "/" + parts[3] == modulePath)
      && (|parts| > 4 && IsMajorSuffix(parts[|parts| - 1]) ==>
            BaseRepo(parts) + "/" + DefaultSubdir(parts) + "/" + parts[|parts| - 1] == modulePath)
  {
    var parts := Split(modulePath, '/');
    JoinSplit(modulePath, '/');
    LayoutOfParts(parts);
    if |parts| > 3 && IsMajorSuffix(parts[|parts| - 1]) {
      LayoutOfVersionedParts(parts);
    }
  }

  /** The name of the repository a VCS URL points at, without a trailing `/` or `.git`. */
  function RepoNameOf(vcsUrl: string): (name: string)
  {
    var parts := Split(RStripChar(vcsUrl, '/'), '/');
    var n := parts[|parts| - 1];
    if EndsWith(n, ".git") then n[..|n| - 4] else n
  }

  /** A URL without `.git` or a final slash: the last element as it is. */
  lemma RepoNameOfPlain(prefix: string, name: string)
    requires name != [] && '/' !in name && !EndsWith(name, ".git")
    ensures RepoNameOf(prefix + "/" + name) == name
  {
    var u := prefix + "/" + name;
    assert u == prefix + ['/'] + name;
    assert u[|u| - 1] == name[|name| - 1] != '/';
    SplitAppend(prefix, '/', name);
  }

  /** A URL ending in `.git`: the suffix is dropped. */
  lemma RepoNameOfGit(prefix: string, name: string)
    requires name != [] && '/' !in name
    ensures RepoNameOf(prefix + "/" + name + ".git") == name
  {
    var ng := name + ".git";
    var g := prefix + "/" + ng;
    assert prefix + "/" + name + ".git" == g;
    assert g == prefix + ['/'] + ng;
    assert g[|g| - 1] == 't';
    assert '/' !in ng;
    SplitAppend(prefix, '/', ng);
    assert ng[|ng| - 4..] == ".git" && ng[..|ng| - 4] == name;
  }

  /** The last path element of a URL names the repository, with or without `.git` or a final slash. */
  lemma RepoNameOfUrl(prefix: string, name: string)
    requires name != [] && '/' !in name && !EndsWith(name, ".git")
    ensures RepoNameOf(prefix + "/" + name) == name
    ensures RepoNameOf(prefix + "/" + name + ".git") == name
    ensures RepoNameOf(prefix + "/" + name + "/") == name
  {
    RepoNameOfPlain(prefix, name);
    RepoNameOfGit(prefix, name);
    var u := prefix + "/" + name;
    assert u[|u| - 1] == name[|name| - 1] != '/';
    var s := u + "/";
    assert s[..|s| - 1] == u;
    assert RStripChar(s, '/') == RStripChar(u, '/');
  }

  /** The element at which the module path enters the repository, as the source tests it. */
  predicate IsRepoBoundary(part: string, repoName: string) {
    part == repoName || Contains(repoName, part) || EndsWith(repoName, part)
  }

  /** One past the index of the first element that is a repository boundary. */
  function RepoBoundary(moduleParts: seq<string>, repoName: string): (r: Option<nat>)
    ensures r.Some? ==> && 1 <= r.value <= |moduleParts|
                        && IsRepoBoundary(moduleParts[r.value - 1], repoName)
                        && forall k :: 0 <= k < r.value - 1 ==> !IsRepoBoundary(moduleParts[k], repoName)
    ensures r.None? ==> forall k :: 0 <= k < |moduleParts| ==> !IsRepoBoundary(moduleParts[k], repoName)
  {
    if moduleParts == [] then None
    else if IsRepoBoundary(moduleParts[0], repoName) then Some(1)
    else match RepoBoundary(moduleParts[1..], repoName)
      case None => None
      case Some(i) => Some(i + 1)
  }

  /**
   * `_recalculate_subdir_from_vanity`: the elements after the repository
   * boundary, minus a major version, when there are any; otherwise no
   * subdirectory for short paths and the current one for long paths.
   */
  function RecalculateSubdirFromVanity(vcsUrl: string, moduleParts: seq<string>, currentSubdir: string): (r: string)
  {
    if vcsUrl == [] then currentSubdir
    else
      var boundary := RepoBoundary(moduleParts, RepoNameOf(vcsUrl));
      if boundary.Some? && boundary.value < |moduleParts| then
        Join(DropMajorSuffix(moduleParts[boundary.value..]), "/")
      else if |moduleParts| <= 3 then ""
      else currentSubdir
  }

  /**
   * When the module path passes through the repository's own name, the
   * subdirectory is exactly what follows it (less a major version), and
   * what the caller had is ignored.
   */
  lemma VanitySubdirAfterRepo(vcsUrl: string, pre: seq<string>, sub: seq<string>, currentSubdir: string)
    requires vcsUrl != [] && sub != []
    requires forall k :: 0 <= k < |pre| ==> !IsRepoBoundary(pre[k], RepoNameOf(vcsUrl))
    ensures RecalculateSubdirFromVanity(vcsUrl, pre + [RepoNameOf(vcsUrl)] + sub, currentSubdir)
      == Join(DropMajorSuffix(sub), "/")
  {
    var name := RepoNameOf(vcsUrl);
    var parts := pre + [name] + sub;
    assert parts[|pre|] == name;
    assert forall k :: 0 <= k < |pre| ==> parts[k] == pre[k];
    var r := RepoBoundary(parts, name);
    assert r.Some?;
    assert r.value == |pre| + 1;
    assert parts[|pre| + 1..] == sub;
  }

  /** Without a boundary, a long path keeps the subdirectory it had and a short one has none. */
  lemma VanitySubdirNoBoundary(vcsUrl: string, moduleParts: seq<string>, currentSubdir: string)
    requires vcsUrl != []
    requires forall k :: 0 <= k < |moduleParts| ==> !IsRepoBoundary(moduleParts[k], RepoNameOf(vcsUrl))
    ensures RecalculateSubdirFromVanity(vcsUrl, moduleParts, currentSubdir)
      == if |moduleParts| <= 3 then "" else currentSubdir
  {
  }
}
