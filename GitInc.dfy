/**
 * Reading `go-mod-git.inc` back: every `SRC_URI +=` line whose entry
 * matches `git://`, a host path without `;`, `;`, parameters without a
 * double quote, and `;destsuffix=vcs_cache/` followed by a lower-case hex
 * hash (searched leftmost, with greedy backtracking) gives the cache
 * hash, the repository `https://<host/path>`, the `rev=` commit and the
 * stripped line; later lines overwrite earlier ones with the same hash.
 */
module GitInc {
  import opened Wrappers
  import opened Strings
  import opened Collections
  import opened SrcUri

  const GitScheme: string := "git://"
  const IncPrefix: string := "SRC_URI +="

  /** The first index at or after `i` holding `c`. */
  function FindFrom(s: string, i: nat, c: char): (r: Option<nat>)
    requires i <= |s|
    decreases |s| - i
    ensures r.Some? ==> i <= r.value < |s| && s[r.value] == c && c !in s[i..r.value]
    ensures r.None? ==> c !in s[i..]
  {
    if i == |s| then None
    else if s[i] == c then Some(i)
    else
      var r := FindFrom(s, i + 1, c);
      assert r.Some? ==> s[i..r.value] == [s[i]] + s[i + 1..r.value];
      assert s[i..] == [s[i]] + s[i + 1..];
      r
  }

  /** `FindFrom` finds exactly the first occurrence. */
  lemma FindFromIs(s: string, i: nat, c: char, k: nat)
    requires i <= k < |s| && s[k] == c && c !in s[i..k]
    ensures FindFrom(s, i, c) == Some(k)
  {
    assert s[i..][k - i] == s[k];
  }

  /** `;destsuffix=vcs_cache/` at `e`, followed by a hash character. */
  predicate DestAt(s: string, e: nat) {
    e + |DestsuffixParam| < |s| && s[e..e + |DestsuffixParam|] == DestsuffixParam
    && IsLowerHexDigit(s[e + |DestsuffixParam|])
  }

  /** The last `e` in `lo..hi` at which `DestAt` holds: where the greedy `([^"]*)` group stops. */
  function LastDestAt(s: string, lo: nat, hi: nat): (r: Option<nat>)
    requires lo <= hi
    decreases hi
    ensures r.Some? ==> lo <= r.value <= hi && DestAt(s, r.value) && forall k :: r.value < k <= hi ==> !DestAt(s, k)
    ensures r.None? ==> forall k :: lo <= k <= hi ==> !DestAt(s, k)
  {
    if DestAt(s, hi) then Some(hi)
    else if hi == lo then None
    else LastDestAt(s, lo, hi - 1)
  }

  lemma LastDestAtIs(s: string, lo: nat, hi: nat, e: nat)
    requires lo <= e <= hi && DestAt(s, e)
    requires forall k :: e < k <= hi ==> !DestAt(s, k)
    ensures LastDestAt(s, lo, hi) == Some(e)
  {
  }

  /** The longest prefix of lower-case hex characters: a greedy `[a-f0-9]+` or `[a-f0-9]*`. */
  function HexRun(s: string): (r: string)
    ensures |r| <= |s| && r == s[..|r|] && AllLowerHex(r)
    ensures |r| == |s| || !IsLowerHexDigit(s[|r|])
  {
    if |s| > 0 && IsLowerHexDigit(s[0]) then [s[0]] + HexRun(s[1..]) else []
  }

  lemma {:induction false} HexRunOf(h: string, t: string)
    requires AllLowerHex(h) && (t == [] || !IsLowerHexDigit(t[0]))
    ensures HexRun(h + t) == h
  {
    if h != [] {
      assert (h + t)[1..] == h[1..] + t;
      HexRunOf(h[1..], t);
      assert h == [h[0]] + h[1..];
    }
  }

  /** `git://` at `p`. */
  predicate SchemeAt(line: string, p: nat) {
    p + |GitScheme| <= |line| && line[p..p + |GitScheme|] == GitScheme
  }

  /**
   * The groups of the `SRC_URI` pattern matched at `p`, if it matches there:
   * the host and path up to the first `;` (non-empty), the parameters up
   * to the last cache marker before the first `"`, and the cache hash.
   */
  function MatchAt(line: string, p: nat): (r: Option<(string, string, string)>)
    requires p <= |line|
    ensures r.Some? ==> var (g1, g2, g3) := r.value;
      g1 != [] && ';' !in g1 && '"' !in g2 && g3 != [] && AllLowerHex(g3)
  {
    if !SchemeAt(line, p) then None
    else
      var semi := FindFrom(line, p + 6, ';');
      if semi.None? || semi.value == p + 6 then None
      else GroupsAfter(line, p, semi.value)
  }

  /**
   * The rest of the match once the host and path end at `semi`: the
   * greedy parameters group stops at the last cache marker before the
   * first `"`.
   */
  function GroupsAfter(line: string, p: nat, semi: nat): (r: Option<(string, string, string)>)
    requires p + 6 < semi < |line| && ';' !in line[p + 6..semi]
    ensures r.Some? ==> var (g1, g2, g3) := r.value;
      g1 != [] && ';' !in g1 && '"' !in g2 && g3 != [] && AllLowerHex(g3)
  {
    var quote := QuoteFrom(line, semi + 1);
    var e := LastDestAt(line, semi + 1, quote);
    if e.None? then None
    else
      assert line[semi + 1..e.value] == line[semi + 1..quote][..e.value - semi - 1];
      var g3 := HexRun(line[e.value + |DestsuffixParam|..]);
      assert g3 != [] by {
        assert line[e.value + |DestsuffixParam|..][0] == line[e.value + |DestsuffixParam|];
      }
      Some((line[p + 6..semi], line[semi + 1..e.value], g3))
  }

  /** The first `"` at or after `i`, or the end of the line. */
  function QuoteFrom(line: string, i: nat): (q: nat)
    requires i <= |line|
    ensures i <= q <= |line| && '"' !in line[i..q]
  {
    var f := FindFrom(line, i, '"');
    if f.Some? then f.value else |line|
  }

  /** Python's `re.search`: the match at the leftmost position from `p` on. */
  function MatchFrom(line: string, p: nat): (r: Option<(string, string, string)>)
    requires p <= |line|
    decreases |line| - p
    ensures r.Some? ==> var (g1, g2, g3) := r.value;
      g1 != [] && ';' !in g1 && '"' !in g2 && g3 != [] && AllLowerHex(g3)
  {
    var m := MatchAt(line, p);
    if m.Some? || p == |line| then m else MatchFrom(line, p + 1)
  }

  /** Positions where `git://` does not start are passed over. */
  lemma {:induction false} MatchFromSkip(line: string, p: nat, q: nat)
    requires p <= q <= |line|
    requires forall k :: p <= k < q ==> line[k] != 'g'
    ensures MatchFrom(line, p) == MatchFrom(line, q)
    decreases q - p
  {
    if p < q {
      assert !SchemeAt(line, p) by {
        if p + |GitScheme| <= |line| {
          assert line[p..p + |GitScheme|][0] == line[p];
        }
      }
      MatchFromSkip(line, p + 1, q);
    }
  }

  /** `rev=` at `p`, followed by a hash character. */
  predicate RevAt(s: string, p: nat) {
    p + 4 < |s| && s[p..p + 4] == "rev=" && IsLowerHexDigit(s[p + 4])
  }

  /** The lower-case hex run after the first `rev=` at or after `p`, or `''` when there is none. */
  function RevFrom(s: string, p: nat): (r: string)
    decreases |s| - p
    ensures AllLowerHex(r)
  {
    if p >= |s| then []
    else if RevAt(s, p) then HexRun(s[p + 4..])
    else RevFrom(s, p + 1)
  }

  lemma {:induction false} RevFromSkip(s: string, p: nat, q: nat)
    requires p <= q <= |s|
    requires forall k :: p <= k < q ==> !RevAt(s, k)
    ensures RevFrom(s, p) == RevFrom(s, q)
    decreases q - p
  {
    if p < q {
      RevFromSkip(s, p + 1, q);
    }
  }

  /** What the hybrid script keeps of a `SRC_URI` entry. */
  datatype GitIncInfo = GitIncInfo(repo: string, commit: string, fullLine: string)

  /**
   * One line of `go-mod-git.inc`: nothing unless it starts with
   * `SRC_URI +=` and the pattern matches; otherwise the cache hash and
   * what is recorded for it.
   */
  function GitIncEntry(line: string): (r: Option<(string, GitIncInfo)>)
    ensures !StartsWith(line, IncPrefix) ==> r.None?
    ensures r.Some? ==> var (hash, info) := r.value;
      && hash != [] && AllLowerHex(hash)
      && StartsWith(info.repo, "https://") && |info.repo| > 8 && ';' !in info.repo[8..]
      && AllLowerHex(info.commit)
      && info.fullLine == Strip(line)
  {
    if !StartsWith(line, IncPrefix) then None
    else
      match MatchFrom(line, 0)
      case None => None
      case Some((g1, g2, g3)) =>
        var repo := "https://" + g1;
        assert repo[..8] == "https://" && repo[8..] == g1;
        Some((g3, GitIncInfo(repo, RevFrom(g2, 0), Strip(line))))
  }

  /** The entries of the lines, in order. */
  function GitIncEntries(lines: seq<string>): (r: seq<Option<(string, GitIncInfo)>>)
    ensures |r| == |lines|
  {
    if |lines| == 0 then [] else GitIncEntries(lines[..|lines| - 1]) + [GitIncEntry(lines[|lines| - 1])]
  }

  /**
   * `parse_go_mod_git_inc` on the file's text: the table holds the entry
   * of the last matching line for every cache hash, and nothing else.
   */
  method ParseGoModGitInc(content: string) returns (info: map<string, GitIncInfo>)
    ensures LastWins(info, map[], GitIncEntries(Split(content, '\n')))
  {
    var lines := Split(content, '\n');
    info := map[];
    var n := 0;
    while n < |lines|
      invariant 0 <= n <= |lines|
      invariant LastWins(info, map[], GitIncEntries(lines[..n]))
    {
      var entry := GitIncEntry(lines[n]);
      assert lines[..n + 1][..n] == lines[..n];
      assert GitIncEntries(lines[..n + 1]) == GitIncEntries(lines[..n]) + [entry];
      LastWinsStep(info, map[], GitIncEntries(lines[..n]), entry);
      if entry.Some? {
        info := info[entry.value.0 := entry.value.1];
      }
      n := n + 1;
    }
    assert lines[..|lines|] == lines;
  }

  // ---------------------------------------------------------------------------
  // Reading back what the fetcher writes
  // ---------------------------------------------------------------------------

  /** The steps of the pattern at `p`, put together. */
  lemma MatchAtSteps(line: string, p: nat, semi: nat, quote: nat, e: nat)
    requires SchemeAt(line, p)
    requires FindFrom(line, p + 6, ';') == Some(semi) && semi > p + 6
    requires QuoteFrom(line, semi + 1) == quote
    requires LastDestAt(line, semi + 1, quote) == Some(e)
    ensures MatchAt(line, p) == Some((line[p + 6..semi], line[semi + 1..e], HexRun(line[e + |DestsuffixParam|..])))
  {
  }

  /** A marker starts with the only `;` it holds. */
  lemma DestAtSemicolon(s: string, e: nat)
    requires DestAt(s, e)
    ensures s[e] == ';'
  {
    assert s[e..e + |DestsuffixParam|][0] == s[e];
  }

  /** After the marker, nothing up to the closing quote is a `;`. */
  lemma MarkerTail(g3: string)
    requires AllLowerHex(g3)
    ensures forall j :: 0 < j < |DestsuffixParam + g3 + "\""| ==> (DestsuffixParam + g3 + "\"")[j] != ';'
  {
  }

  /** No second marker starts inside the marker, the hash or the closing quote. */
  lemma NoMarkerAfter(line: string, e: nat, g3: string)
    requires e <= |line| && AllLowerHex(g3) && line[e..] == DestsuffixParam + g3 + "\""
    ensures forall k :: e < k <= |line| ==> !DestAt(line, k)
  {
    MarkerTail(g3);
    forall k | e < k <= |line| ensures !DestAt(line, k) {
      if DestAt(line, k) {
        assert line[k] == line[e..][k - e];
        DestAtSemicolon(line, k);
      }
    }
  }

  /** With no `"` in the parameters, marker or hash, the parameters group may run up to the closing quote. */
  lemma QuoteAtEnd(line: string, semi: nat, e: nat, g3: string)
    requires semi < e <= |line| && '"' !in line[semi + 1..e] && AllLowerHex(g3)
    requires line[e..] == DestsuffixParam + g3 + "\""
    ensures QuoteFrom(line, semi + 1) == |line| - 1
  {
    var tail := line[e..];
    assert line[semi + 1..|line| - 1] == line[semi + 1..e] + tail[..|tail| - 1];
    assert '"' !in tail[..|tail| - 1] by {
      assert tail[..|tail| - 1] == DestsuffixParam + g3;
    }
    FindFromIs(line, semi + 1, '"', |line| - 1);
  }

  /** The parameters group stops at the marker before the hash, and the hash runs up to the quote. */
  lemma MarkerIsLast(line: string, lo: nat, e: nat, g3: string)
    requires lo <= e <= |line| && g3 != [] && AllLowerHex(g3)
    requires line[e..] == DestsuffixParam + g3 + "\""
    ensures LastDestAt(line, lo, |line| - 1) == Some(e)
    ensures HexRun(line[e + |DestsuffixParam|..]) == g3
  {
    var tail := line[e..];
    assert line[e + |DestsuffixParam|..] == g3 + "\"";
    HexRunOf(g3, "\"");
    assert line[e..e + |DestsuffixParam|] == tail[..|DestsuffixParam|];
    assert line[e + |DestsuffixParam|] == g3[0];
    assert DestAt(line, e);
    NoMarkerAfter(line, e, g3);
    LastDestAtIs(line, lo, |line| - 1, e);
  }

  /** From the `;` after the host and path on: where the parameters end and what the hash is. */
  lemma AfterHostPath(line: string, semi: nat, e: nat, g3: string)
    requires semi < e <= |line| && '"' !in line[semi + 1..e]
    requires g3 != [] && AllLowerHex(g3) && line[e..] == DestsuffixParam + g3 + "\""
    ensures QuoteFrom(line, semi + 1) == |line| - 1
    ensures LastDestAt(line, semi + 1, |line| - 1) == Some(e)
    ensures HexRun(line[e + |DestsuffixParam|..]) == g3
  {
    QuoteAtEnd(line, semi, e, g3);
    MarkerIsLast(line, semi + 1, e, g3);
  }

  /**
   * The pattern matches at `p` when the line holds, from there on,
   * `git://`, a host and path without `;` up to the `;` at `semi`,
   * parameters without `"` up to `e`, and from `e` the cache marker, the
   * hash and the closing quote.
   */
  lemma MatchAtParts(line: string, p: nat, semi: nat, e: nat, g3: string)
    requires SchemeAt(line, p) && p + 6 < semi < e <= |line|
    requires ';' !in line[p + 6..semi] && line[semi] == ';'
    requires '"' !in line[semi + 1..e]
    requires g3 != [] && AllLowerHex(g3) && line[e..] == DestsuffixParam + g3 + "\""
    ensures MatchAt(line, p) == Some((line[p + 6..semi], line[semi + 1..e], g3))
  {
    FindFromIs(line, p + 6, ';', semi);
    AfterHostPath(line, semi, e, g3);
    MatchAtSteps(line, p, semi, |line| - 1, e);
  }

  // ---------------------------------------------------------------------------
  // The `rev=` value of the parameters the fetcher writes
  // ---------------------------------------------------------------------------

  /** No `=` follows a `v`, and none starts the text: no `rev=` can end inside it. */
  predicate NoRevKey(s: string) {
    forall j :: 0 <= j < |s| && s[j] == '=' ==> j > 0 && s[j - 1] != 'v'
  }

  lemma NoRevKeyAppend(a: string, b: string)
    requires NoRevKey(a) && NoRevKey(b)
    ensures NoRevKey(a + b)
  {
    forall j | 0 <= j < |a + b| && (a + b)[j] == '=' ensures j > 0 && (a + b)[j - 1] != 'v' {
      if j >= |a| {
        assert b[j - |a|] == '=';
      }
    }
  }

  /** Before a `;rev=<hash>` that follows text without a `rev=` key, the search finds nothing. */
  lemma NoRevBefore(x: string, rest: string)
    requires NoRevKey(x)
    ensures forall k :: 0 <= k <= |x| ==> !RevAt(x + ";rev=" + rest, k)
  {
    var s := x + ";rev=" + rest;
    forall j | 2 <= j <= |x| + 2 && j + 2 < |s| ensures !(s[j] == 'v' && s[j + 1] == '=') {
      if j + 1 < |x| {
        assert s[j + 1] == x[j + 1] && s[j] == x[j];
      } else {
        assert s[j + 1] == (";rev=" + rest)[j + 1 - |x|];
      }
    }
    forall k | 0 <= k <= |x| ensures !RevAt(s, k) {
      if k + 4 < |s| {
        assert s[k..k + 4][2] == s[k + 2] && s[k..k + 4][3] == s[k + 3];
      }
    }
  }

  /** After text without a `rev=` key, `;rev=<hash>` gives the hash. */
  lemma RevAfterKeyFree(x: string, hash: string, tail: string)
    requires NoRevKey(x)
    requires hash != [] && AllLowerHex(hash) && (tail == [] || !IsLowerHexDigit(tail[0]))
    ensures RevFrom(x + ";rev=" + (hash + tail), 0) == hash
  {
    var s := x + ";rev=" + (hash + tail);
    NoRevBefore(x, hash + tail);
    RevFromSkip(s, 0, |x| + 1);
    assert s[|x| + 1..|x| + 5] == "rev=";
    assert s[|x| + 5..] == hash + tail;
    HexRunOf(hash, tail);
  }

  /** The branch and shallow parameters as `RefParamsFor` chooses them, with a branch name that has no `=` or `"`. */
  predicate WellFormedRef(ref: RefParams) {
    && (ref.shallow == "" || ref.shallow == ";shallow=1")
    && (ref.branch == ";nobranch=1"
        || (|ref.branch| >= 8 && ref.branch[..8] == ";branch=" && '=' !in ref.branch[8..] && '"' !in ref.branch[8..]))
  }

  /** `RefParamsFor` gives well-formed parameters when the branch names it may use have no `=` or `"`. */
  lemma RefParamsWellFormed(refHint: string, detectedBranch: string)
    requires '=' !in refHint && '"' !in refHint && '=' !in detectedBranch && '"' !in detectedBranch
    ensures WellFormedRef(RefParamsFor(refHint, detectedBranch))
  {
    var r := RefParamsFor(refHint, detectedBranch);
    if refHint != [] && !StartsWith(refHint, "refs/tags/") && StartsWith(refHint, "refs/heads/") {
      assert r.branch[8..] == refHint[11..];
    } else if refHint == [] && detectedBranch != [] {
      assert r.branch[8..] == detectedBranch;
    }
  }

  /** Text without a `v` that does not start with `=` has no `rev=` key. */
  lemma NoVNoRevKey(s: string)
    requires 'v' !in s && (s == [] || s[0] != '=')
    ensures NoRevKey(s)
  {
    forall j | 0 <= j < |s| && s[j] == '=' ensures j > 0 && s[j - 1] != 'v' {
      if j > 0 {
        assert s[j - 1] in s;
      }
    }
  }

  lemma {:induction false} RefKeyFree(protocol: string, ref: RefParams)
    requires protocol == "https" || protocol == "http"
    requires WellFormedRef(ref)
    ensures NoRevKey("protocol=" + protocol + ref.branch + ref.shallow)
  {
    var head := "protocol=" + protocol;
    assert 'v' !in head && head[0] == 'p';
    NoVNoRevKey(head);
    assert NoRevKey(ref.branch) by {
      if ref.branch == ";nobranch=1" {
        NoVNoRevKey(ref.branch);
      } else {
        var name := ref.branch[8..];
        assert ref.branch == ";branch=" + name;
        assert 'v' !in ";branch=";
        NoVNoRevKey(";branch=");
        assert NoRevKey(name);
        NoRevKeyAppend(";branch=", name);
      }
    }
    assert NoRevKey(ref.shallow) by {
      NoVNoRevKey(ref.shallow);
    }
    NoRevKeyAppend(head, ref.branch);
    NoRevKeyAppend(head + ref.branch, ref.shallow);
  }

  lemma RefQuoteFree(protocol: string, ref: RefParams)
    requires protocol == "https" || protocol == "http"
    requires WellFormedRef(ref)
    ensures '"' !in "protocol=" + protocol + ref.branch + ref.shallow
  {
    assert '"' !in "protocol=" + protocol;
    assert '"' !in ref.branch by {
      if ref.branch != ";nobranch=1" {
        assert ref.branch == ";branch=" + ref.branch[8..];
      }
    }
    assert '"' !in ref.shallow;
  }

  /** The `rev=` search over the fetcher's parameters finds the commit hash. */
  lemma RevOfEntryParams(protocol: string, ref: RefParams, commitHash: string, fetchName: string)
    requires protocol == "https" || protocol == "http"
    requires WellFormedRef(ref)
    requires commitHash != [] && AllLowerHex(commitHash)
    ensures RevFrom(EntryParams(protocol, ref, commitHash, fetchName), 0) == commitHash
  {
    var x := "protocol=" + protocol + ref.branch + ref.shallow;
    assert EntryParams(protocol, ref, commitHash, fetchName) == x + ";rev=" + (commitHash + (";name=" + fetchName));
    RefKeyFree(protocol, ref);
    RevAfterKeyFree(x, commitHash, ";name=" + fetchName);
  }

  /** The parameters the fetcher writes hold no `"`. */
  lemma EntryParamsQuoteFree(protocol: string, ref: RefParams, commitHash: string, fetchName: string)
    requires protocol == "https" || protocol == "http"
    requires WellFormedRef(ref) && AllLowerHex(commitHash) && '"' !in fetchName
    ensures '"' !in EntryParams(protocol, ref, commitHash, fetchName)
  {
    RefQuoteFree(protocol, ref);
    assert '"' !in commitHash;
  }

  // ---------------------------------------------------------------------------
  // Round trip: a written `SRC_URI` line reads back as what was written
  // ---------------------------------------------------------------------------

  /** Where the pieces of `pre + (a + host + ";" + params + d + hash) + q` sit. */
  lemma LineLayout(pre: string, a: string, host: string, params: string, d: string, hash: string, q: string)
    ensures var line := pre + (a + host + ";" + params + d + hash) + q;
      var i := |pre| + |a|;
      var semi := i + |host|;
      var e := semi + 1 + |params|;
      && line[..|pre|] == pre && line[|pre|..i] == a && line[i..semi] == host && line[semi] == ';'
      && line[semi + 1..e] == params && line[e..] == d + hash + q
  {
  }

  /** The written prefix `SRC_URI += "` holds no `g`, so the search reaches the `git://`. */
  lemma PrefixSkipped(line: string, body: string)
    requires line == "SRC_URI += \"" + body + "\""
    ensures MatchFrom(line, 0) == MatchFrom(line, 12)
  {
    var pre := "SRC_URI += \"";
    assert line[..12] == pre;
    forall k | 0 <= k < 12 ensures line[k] != 'g' {
      assert line[k] == pre[k];
    }
    MatchFromSkip(line, 0, 12);
  }

  /** The pattern finds the host, the parameters and the hash of a written line. */
  lemma MatchOfWrittenLine(host: string, params: string, hash: string)
    requires host != [] && ';' !in host && '"' !in params && hash != [] && AllLowerHex(hash)
    ensures MatchFrom(IncLine(GitScheme + host + ";" + params + DestsuffixParam + hash), 0) == Some((host, params, hash))
  {
    var pre := "SRC_URI += \"";
    var line := IncLine(GitScheme + host + ";" + params + DestsuffixParam + hash);
    assert line == pre + (GitScheme + host + ";" + params + DestsuffixParam + hash) + "\"";
    LineLayout(pre, GitScheme, host, params, DestsuffixParam, hash, "\"");
    var semi := 18 + |host|;
    var e := semi + 1 + |params|;
    assert SchemeAt(line, 12);
    assert line[18..semi] == host && line[semi + 1..e] == params;
    MatchAtParts(line, 12, semi, e, hash);
    assert MatchAt(line, 12) == Some((host, params, hash));
    assert MatchFrom(line, 12) == Some((host, params, hash));
    PrefixSkipped(line, GitScheme + host + ";" + params + DestsuffixParam + hash);
  }

  /** A written line starts with `S` and ends with `"`, so stripping leaves it as it is. */
  lemma IncLineStripped(entry: string)
    ensures Strip(IncLine(entry)) == IncLine(entry)
  {
    var line := IncLine(entry);
    assert line[0] == 'S' && line[|line| - 1] == '"';
    StripNoEdges(line);
  }

  /**
   * What the hybrid script reads back from a `SRC_URI` line the fetcher
   * wrote for a web repository URL: the cache hash as key, the repository
   * (always over `https://`, also for an `http://` URL), the commit from
   * `rev=`, and the whole line.
   */
  lemma GitIncRoundTrip(gitUrl: string, host: string, ref: RefParams, commitHash: string, repoKey: string, idx: nat, commitSha: string)
    requires gitUrl == "https://" + host || gitUrl == "http://" + host
    requires host != [] && ';' !in host
    requires WellFormedRef(ref) && '"' !in repoKey
    requires commitHash != [] && AllLowerHex(commitHash)
    requires commitSha != [] && AllLowerHex(commitSha)
    ensures var line := IncLine(SrcUriEntry(gitUrl, ref, commitHash, repoKey, idx, commitSha));
      GitIncEntry(line) == Some((commitSha, GitIncInfo("https://" + host, commitHash, line)))
  {
    var scheme := FetchScheme(gitUrl);
    if gitUrl == "https://" + host {
      assert StartsWith(gitUrl, "https://");
      assert gitUrl[8..] == host;
    } else {
      assert gitUrl[..7] == "http://" && gitUrl[4] == ':';
      assert gitUrl[7..] == host;
    }
    assert scheme.url == GitScheme + host;
    var fetchName := FetchName(repoKey, idx);
    var params := EntryParams(scheme.protocol, ref, commitHash, fetchName);
    EntryParamsQuoteFree(scheme.protocol, ref, commitHash, fetchName);
    RevOfEntryParams(scheme.protocol, ref, commitHash, fetchName);
    var entry := SrcUriEntry(gitUrl, ref, commitHash, repoKey, idx, commitSha);
    assert entry == GitScheme + host + ";" + params + DestsuffixParam + commitSha;
    MatchOfWrittenLine(host, params, commitSha);
    IncLineStripped(entry);
  }
}
