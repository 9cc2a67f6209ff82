/**
 * The `git://` `SRC_URI` entries the fetcher writes into
 * `go-mod-git.inc`, one per repository commit: the URL rewritten to the
 * `git://` scheme with the original scheme kept as `protocol=`, the
 * branch and shallow parameters chosen from the tag or branch the commit
 * was found under, and the revision, fetch name and cache directory.
 */
module SrcUri {
  import opened Wrappers
  import opened Strings

  /** The entry's URL (`git_url_bb`) and its `protocol=` value. */
  datatype Scheme = Scheme(url: string, protocol: string)

  /**
   * An `https://` or `http://` URL is fetched as `git://` with the
   * original scheme as the protocol; any other URL is used as it is, over
   * `https`.
   */
  function FetchScheme(gitUrl: string): (r: Scheme)
    ensures r.protocol == "https" || r.protocol == "http"
    ensures r.protocol == "http" <==> StartsWith(gitUrl, "http://")
  {
    if StartsWith(gitUrl, "https://") then
      assert gitUrl[..7][4] == 's';
      Scheme("git://" + gitUrl[8..], "https")
    else if StartsWith(gitUrl, "http://") then Scheme("git://" + gitUrl[7..], "http")
    else Scheme(gitUrl, "https")
  }

  /** For a web URL, the protocol and the `git://` URL together give back the original. */
  lemma FetchSchemeRoundTrip(gitUrl: string)
    requires StartsWith(gitUrl, "https://") || StartsWith(gitUrl, "http://")
    ensures var r := FetchScheme(gitUrl);
      StartsWith(r.url, "git://") && r.protocol + "://" + r.url[6..] == gitUrl
  {
    var r := FetchScheme(gitUrl);
    assert r.url[..6] == "git://";
    if StartsWith(gitUrl, "https://") {
      assert r.url[6..] == gitUrl[8..];
      assert gitUrl == gitUrl[..8] + gitUrl[8..];
    } else {
      assert r.url[6..] == gitUrl[7..];
      assert gitUrl == gitUrl[..7] + gitUrl[7..];
    }
  }

  /** The `;shallow=1` and `;nobranch=1` / `;branch=<name>` parameters of an entry. */
  datatype RefParams = RefParams(shallow: string, branch: string)

  /**
   * The parameters chosen from the ref the commit was found under
   * (`ref_hint`, empty when none) and, for commits without one, the
   * branch the verification step detected (empty when none).
   */
  function RefParamsFor(refHint: string, detectedBranch: string): (r: RefParams)
  {
    if refHint != [] then
      if StartsWith(refHint, "refs/tags/") then RefParams(";shallow=1", ";nobranch=1")
      else if StartsWith(refHint, "refs/heads/") then RefParams(";shallow=1", ";branch=" + refHint[11..])
      else RefParams(";shallow=1", ";nobranch=1")
    else if detectedBranch != [] then RefParams("", ";branch=" + detectedBranch)
    else RefParams("", ";nobranch=1")
  }

  /**
   * A commit with a ref is fetched shallow, one without is not. A branch
   * ref names its branch and a tag does not; without a ref, the detected
   * branch is named when there is one.
   */
  lemma RefParamsSpec(refHint: string, detectedBranch: string)
    ensures var r := RefParamsFor(refHint, detectedBranch);
      && (r.shallow == ";shallow=1" <==> refHint != [])
      && (r.shallow == "" <==> refHint == [])
      && (StartsWith(refHint, "refs/heads/") ==> r.branch == ";branch=" + refHint[11..])
      && (refHint != [] && !StartsWith(refHint, "refs/heads/") ==> r.branch == ";nobranch=1")
      && (refHint == [] ==> r.branch == if detectedBranch != [] then ";branch=" + detectedBranch else ";nobranch=1")
  {
    if StartsWith(refHint, "refs/heads/") {
      assert refHint[..10] != "refs/tags/" by {
        assert refHint[5] == 'h';
      }
    }
  }

  /** A decimal digit. */
  function DigitChar(d: nat): (c: char)
    requires d < 10
    ensures IsDigit(c) && c as int - '0' as int == d
  {
    (d + '0' as int) as char
  }

  /** `str(n)` for a natural number: its decimal digits, which read back as `n`. */
  function DecimalString(n: nat): (r: string)
    ensures |r| >= 1 && AllDigits(r) && Num(r) == n
  {
    if n < 10 then [DigitChar(n)]
    else
      var r := DecimalString(n / 10) + [DigitChar(n % 10)];
      assert r[..|r| - 1] == DecimalString(n / 10);
      r
  }

  /** `git_`, the first eight characters of the repository key, `_` and `idx`: the fetch name of the `idx`-th commit of a repository. */
  function FetchName(repoKey: string, idx: nat): (r: string)
    ensures StartsWith(r, "git_")
    ensures '"' !in repoKey ==> '"' !in r
  {
    var name := "git_" + repoKey[..if |repoKey| < 8 then |repoKey| else 8] + "_" + DecimalString(idx);
    assert name[..4] == "git_";
    name
  }

  /** The commits of one repository get distinct fetch names. */
  lemma FetchNameInjective(repoKey: string, i: nat, j: nat)
    ensures i != j ==> FetchName(repoKey, i) != FetchName(repoKey, j)
  {
    var pre := "git_" + repoKey[..if |repoKey| < 8 then |repoKey| else 8] + "_";
    assert FetchName(repoKey, i) == pre + DecimalString(i);
    assert FetchName(repoKey, j) == pre + DecimalString(j);
    if FetchName(repoKey, i) == FetchName(repoKey, j) {
      assert DecimalString(i) == FetchName(repoKey, i)[|pre|..];
      assert DecimalString(j) == FetchName(repoKey, j)[|pre|..];
    }
  }

  /** The parameters between the URL and the cache directory. */
  function EntryParams(protocol: string, ref: RefParams, commitHash: string, fetchName: string): (r: string)
  {
    "protocol=" + protocol + ref.branch + ref.shallow + ";rev=" + commitHash + ";name=" + fetchName
  }

  /** The cache directory parameter, with the `;` that introduces it. */
  const DestsuffixParam: string := ";destsuffix=vcs_cache/"

  /** One `SRC_URI` entry for the `idx`-th commit of a repository. */
  function SrcUriEntry(gitUrl: string, ref: RefParams, commitHash: string, repoKey: string, idx: nat, commitSha: string): (r: string)
  {
    var scheme := FetchScheme(gitUrl);
    scheme.url + ";" + EntryParams(scheme.protocol, ref, commitHash, FetchName(repoKey, idx)) + DestsuffixParam + commitSha
  }

  /** The line written for an entry: `SRC_URI += "<entry>"`. */
  function IncLine(entry: string): (line: string)
    ensures StartsWith(line, "SRC_URI +=")
  {
    var line := "SRC_URI += \"" + entry + "\"";
    assert line[..10] == "SRC_URI +=";
    line
  }
}
