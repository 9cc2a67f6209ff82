/**
 * The fetcher's repository-override policy and its module metadata cache.
 *
 * Overrides say which repository URL serves a module, for one version or
 * for all versions (a wildcard, version absent). They come from two files:
 * the dynamic ones written by `--set-repo` and the manual ones kept under
 * version control, plus a legacy per-module list. The metadata cache maps a
 * (module, version) pair to the repository, commit and related facts found
 * for it; pruning drops entries that are incomplete or that an override
 * rules out, and a dirty flag records that the cache must be written back.
 *
 * The module-level tables of the script are the fields of `FetcherState`.
 */
module Overrides {
  import opened Wrappers
  import opened Strings
  import opened Collections
  import PseudoVersion

  /** A module path and a version, or no version for a wildcard override. */
  type OverrideKey = (string, Option<string>)

  // ---------------------------------------------------------------------------
  // Override keys
  // ---------------------------------------------------------------------------

  /**
   * `_normalise_override_key`: strips the module path and a non-empty
   * version (an empty version means the wildcard); fails on a module path
   * that is empty once stripped. A stored key's module path is non-empty
   * and has no surrounding whitespace.
   */
  function NormaliseOverrideKey(modulePath: string, version: Option<string>): (r: Result<OverrideKey>)
    ensures r.Err? <==> Strip(modulePath) == []
    ensures r.Ok? ==> r.value.0 != [] && Trimmed(r.value.0)
    ensures r.Ok? && (version.None? || version.value == []) ==> r.value.1.None?
  {
    StripSpec(modulePath);
    var path := Strip(modulePath);
    var ver := if version.Some? && version.value != [] then Some(Strip(version.value)) else None;
    if path == [] then Err("module path for override cannot be empty")
    else Ok((path, ver))
  }

  /** Normalising a normalised key with a non-empty version gives it back. */
  lemma NormaliseStable(modulePath: string, version: Option<string>)
    ensures var r := NormaliseOverrideKey(modulePath, version);
      r.Ok? && (r.value.1.None? || r.value.1.value != []) ==> NormaliseOverrideKey(r.value.0, r.value.1) == r
  {
    StripStrip(modulePath);
    if version.Some? {
      StripStrip(version.value);
    }
  }

  /**
   * `_parse_override_spec`: a `module@version` argument splits at its first
   * `@`; both parts are stripped and an empty version means none.
   */
  function ParseOverrideSpec(spec: string): (r: (string, Option<string>))
  {
    match Find(spec, "@")
    case None => (Strip(spec), None)
    case Some(i) =>
      var version := spec[i + 1..];
      (Strip(spec[..i]), if version != [] then Some(Strip(version)) else None)
  }

  /** A spec splits into the part before its first `@` and the rest. */
  lemma ParseOverrideSpecAt(path: string, version: string)
    requires '@' !in path
    ensures ParseOverrideSpec(path + "@" + version)
      == (Strip(path), if version == [] then None else Some(Strip(version)))
  {
    var spec := path + "@" + version;
    FindAfter(path, "@", version);
    assert spec[..|path|] == path && spec[|path| + 1..] == version;
  }

  /** A spec without `@` is a module path with no version. */
  lemma ParseOverrideSpecPlain(spec: string)
    requires '@' !in spec
    ensures ParseOverrideSpec(spec) == (Strip(spec), None)
  {
    FindSpec(spec, "@");
    if Contains(spec, "@") {
      ContainsFirst(spec, "@");
    }
  }

  /**
   * The key under which `save_repo_overrides` writes an override: the
   * module path alone for a wildcard, `module|||version` otherwise.
   */
  function OverrideFileKey(key: OverrideKey): (r: string)
    ensures key.1.None? ==> r == key.0
    ensures key.1.Some? ==> r == key.0 + "|||" + key.1.value
  {
    if key.1.None? then key.0 else key.0 + "|||" + key.1.value
  }

  /**
   * The key parsing of `_load_overrides_from_file`: `module|||version`
   * (version `*` is the wildcard) split at the first `|||`; otherwise
   * `module@version` split at the last `@`, unless the key starts with
   * `@`; otherwise a wildcard for the whole key. The result is then
   * normalised, and a key that fails normalisation is skipped.
   */
  function ParseOverrideFileKey(raw: string): (r: Result<OverrideKey>)
  {
    match Find(raw, "|||")
    case Some(i) =>
      var versionPart := raw[i + 3..];
      NormaliseOverrideKey(raw[..i], if versionPart == "*" then None else Some(versionPart))
    case None =>
      if '@' in raw && raw[0] != '@' then
        var at := RFind(raw, '@').value;
        NormaliseOverrideKey(raw[..at], Some(raw[at + 1..]))
      else NormaliseOverrideKey(raw, None)
  }

  /** A `module|||version` key is split at the separator; `*` means every version. */
  lemma ParseFileKeyPipes(path: string, version: string)
    requires '|' !in path
    ensures ParseOverrideFileKey(path + "|||" + version)
      == NormaliseOverrideKey(path, if version == "*" then None else Some(version))
  {
    var raw := path + "|||" + version;
    FindAfter(path, "|||", version);
    assert raw[..|path|] == path && raw[|path| + 3..] == version;
  }

  /** A `module@version` key is split at its `@`. */
  lemma ParseFileKeyAt(path: string, version: string)
    requires path != [] && path[0] != '@' && '@' !in version
    requires '|' !in path && '|' !in version
    ensures ParseOverrideFileKey(path + "@" + version) == NormaliseOverrideKey(path, Some(version))
  {
    var raw := path + "@" + version;
    assert '|' !in raw;
    FindSpec(raw, "|||");
    if Contains(raw, "|||") {
      ContainsFirst(raw, "|||");
    }
    RFindLast(path, '@', version);
    assert raw[..|path|] == path && raw[|path| + 1..] == version;
  }

  /**
   * Saving and loading agree: a normalised key (module path without `|`
   * or `@`, version other than `*`) is read back from the file as itself.
   */
  lemma OverrideFileKeyRoundTrip(key: OverrideKey)
    requires key.0 != [] && Trimmed(key.0) && '|' !in key.0 && '@' !in key.0
    requires key.1.Some? ==> key.1.value != [] && Trimmed(key.1.value) && key.1.value != "*"
    ensures ParseOverrideFileKey(OverrideFileKey(key)) == Ok(key)
  {
    StripNoEdges(key.0);
    if key.1.Some? {
      ParseFileKeyPipes(key.0, key.1.value);
      StripNoEdges(key.1.value);
    } else {
      FindSpec(key.0, "|||");
      if Contains(key.0, "|||") {
        ContainsFirst(key.0, "|||");
      }
    }
  }

  /** What one entry of an overrides file assigns: nothing if its value is not a string or its key is invalid. */
  function OverrideEntry(entry: (string, Option<string>)): (e: Option<(OverrideKey, string)>)
    ensures e.Some? ==> entry.1 == Some(e.value.1) && ParseOverrideFileKey(entry.0) == Ok(e.value.0)
  {
    if entry.1.None? then None
    else match ParseOverrideFileKey(entry.0)
      case Err(_) => None
      case Ok(key) => Some((key, entry.1.value))
  }

  /** What the entries of an overrides file assign, in file order. */
  function OverrideEntries(entries: seq<(string, Option<string>)>): (es: seq<Option<(OverrideKey, string)>>)
    ensures |es| == |entries|
  {
    if |entries| == 0 then []
    else OverrideEntries(entries[..|entries| - 1]) + [OverrideEntry(entries[|entries| - 1])]
  }

  /**
   * `_load_overrides_from_file` over the entries of the file, in order (a
   * value `None` stands for a value that is not a string): the target keeps
   * its other keys, and each key read maps to the URL of its last entry.
   */
  method LoadOverridesFromFile(target: map<OverrideKey, string>, entries: seq<(string, Option<string>)>)
    returns (result: map<OverrideKey, string>)
    ensures LastWins(result, target, OverrideEntries(entries))
  {
    result := target;
    LastWinsEmpty(target);
    var n := 0;
    while n < |entries|
      invariant 0 <= n <= |entries|
      invariant LastWins(result, target, OverrideEntries(entries[..n]))
    {
      var e := OverrideEntry(entries[n]);
      LastWinsStep(result, target, OverrideEntries(entries[..n]), e);
      assert entries[..n + 1][..n] == entries[..n];
      if e.Some? {
        result := result[e.value.0 := e.value.1];
      }
      n := n + 1;
    }
    assert entries[..|entries|] == entries;
  }

  // ---------------------------------------------------------------------------
  // Override candidates
  // ---------------------------------------------------------------------------

  /** The URL the table holds for `key`, when there is a non-empty one. */
  function Lookup(table: map<OverrideKey, string>, key: OverrideKey): (r: seq<string>)
    ensures r == [] <==> key !in table || table[key] == []
    ensures r != [] ==> r == [table[key]]
  {
    if key in table && table[key] != [] then [table[key]] else []
  }

  /**
   * Every override that applies, highest priority first: dynamic for the
   * version, dynamic wildcard, manual for the version, manual wildcard, and
   * the legacy list of the unnormalised module path.
   */
  function Sources(dynamic: map<OverrideKey, string>, manual: map<OverrideKey, string>,
                   legacy: map<string, seq<string>>, modulePath: string, key: OverrideKey, wildcard: OverrideKey): (s: seq<string>)
  {
    Lookup(dynamic, key) + Lookup(dynamic, wildcard) + Lookup(manual, key) + Lookup(manual, wildcard)
    + (if modulePath in legacy then legacy[modulePath] else [])
  }

  /** `repo_override_candidates` on given tables. */
  function CandidatesFrom(dynamic: map<OverrideKey, string>, manual: map<OverrideKey, string>,
                          legacy: map<string, seq<string>>, modulePath: string, version: Option<string>): (r: Result<seq<string>>)
  {
    match (NormaliseOverrideKey(modulePath, version), NormaliseOverrideKey(modulePath, None))
    case (Ok(key), Ok(wildcard)) => Ok(Dedup(Sources(dynamic, manual, legacy, modulePath, key, wildcard)))
    case _ => Err("module path for override cannot be empty")
  }

  /**
   * The candidates fail for a blank module path; otherwise they list every
   * applicable override once, ordered by the highest-priority source each
   * comes from.
   */
  lemma CandidatesSpec(dynamic: map<OverrideKey, string>, manual: map<OverrideKey, string>,
                       legacy: map<string, seq<string>>, modulePath: string, version: Option<string>)
    ensures var r := CandidatesFrom(dynamic, manual, legacy, modulePath, version);
      && (r.Err? <==> Strip(modulePath) == [])
      && (r.Ok? ==>
        var s := Sources(dynamic, manual, legacy, modulePath,
                         NormaliseOverrideKey(modulePath, version).value, NormaliseOverrideKey(modulePath, None).value);
        && NoDuplicates(r.value)
        && (forall x :: x in r.value <==> x in s)
        && (forall i, j :: 0 <= i < j < |r.value| ==> FirstIndex(s, r.value[i]) < FirstIndex(s, r.value[j])))
  {
    if Strip(modulePath) != [] {
      DedupSpec(Sources(dynamic, manual, legacy, modulePath,
                        NormaliseOverrideKey(modulePath, version).value, NormaliseOverrideKey(modulePath, None).value));
    }
  }

  /** A dynamic override for the exact version is always the first candidate. */
  lemma DynamicOverrideFirst(dynamic: map<OverrideKey, string>, manual: map<OverrideKey, string>,
                             legacy: map<string, seq<string>>, modulePath: string, version: Option<string>)
    requires NormaliseOverrideKey(modulePath, version).Ok?
    requires var key := NormaliseOverrideKey(modulePath, version).value; key in dynamic && dynamic[key] != []
    ensures var r := CandidatesFrom(dynamic, manual, legacy, modulePath, version);
      r.Ok? && |r.value| > 0 && r.value[0] == dynamic[NormaliseOverrideKey(modulePath, version).value]
  {
    var key := NormaliseOverrideKey(modulePath, version).value;
    var wildcard := NormaliseOverrideKey(modulePath, None).value;
    DedupHead(Sources(dynamic, manual, legacy, modulePath, key, wildcard));
  }

  /** Without any override table, a module has no candidates. */
  lemma NoOverridesNoCandidates(modulePath: string, version: Option<string>)
    requires Strip(modulePath) != []
    ensures CandidatesFrom(map[], map[], map[], modulePath, version) == Ok([])
  {
  }

  /** `_normalize_url`: stripped, `git://` turned into `https://`, one trailing `.git` dropped. */
  function NormalizeUrl(url: string): (r: string)
    ensures !StartsWith(r, "git://")
  {
    var u := Strip(url);
    var u' := if StartsWith(u, "git://") then "https://" + u[6..] else u;
    assert !StartsWith(u', "git://") by {
      if StartsWith(u, "git://") {
        assert u'[0] == 'h';
      }
    }
    if EndsWith(u', ".git") then
      StartsWithOfPrefix(u', |u'| - 4, "git://");
      u'[..|u'| - 4]
    else u'
  }

  /** A `git://` URL is the same repository as its `https://` spelling. */
  lemma NormalizeGitScheme(rest: string)
    requires Trimmed(rest)
    ensures NormalizeUrl("git://" + rest) == NormalizeUrl("https://" + rest)
  {
    StripNoEdges("git://" + rest);
    StripNoEdges("https://" + rest);
    assert ("git://" + rest)[..6] == "git://";
    assert ("git://" + rest)[6..] == rest;
    assert ("https://" + rest)[..6] != "git://";
  }

  /** A `.git` suffix does not change the repository. */
  lemma NormalizeGitSuffix(url: string)
    requires |url| >= 6 && Trimmed(url) && !StartsWith(url, "git://") && !EndsWith(url, ".git")
    ensures NormalizeUrl(url + ".git") == NormalizeUrl(url)
  {
    var u := url + ".git";
    StripNoEdges(url);
    StripNoEdges(u);
    assert u[..6] == url[..6];
    assert u[..|u| - 4] == url;
  }

  /**
   * `_url_allowed_for_module`: fails where the candidates fail; a module
   * without candidates accepts every URL; otherwise the URL must equal a
   * candidate once both are normalised.
   */
  function UrlAllowed(dynamic: map<OverrideKey, string>, manual: map<OverrideKey, string>,
                      legacy: map<string, seq<string>>, modulePath: string, url: string, version: Option<string>): (r: Result<bool>)
  {
    match CandidatesFrom(dynamic, manual, legacy, modulePath, version)
    case Err(e) => Err(e)
    case Ok(os) => Ok(os == [] || exists o :: o in os && NormalizeUrl(o) == NormalizeUrl(url))
  }

  /**
   * The check fails exactly for a blank module path, and rejects a URL
   * only when there are candidates and none of them names the same
   * repository.
   */
  lemma UrlAllowedSpec(dynamic: map<OverrideKey, string>, manual: map<OverrideKey, string>,
                       legacy: map<string, seq<string>>, modulePath: string, url: string, version: Option<string>)
    ensures var r := UrlAllowed(dynamic, manual, legacy, modulePath, url, version);
      && (r.Err? <==> Strip(modulePath) == [])
      && (r == Ok(false) <==>
        var c := CandidatesFrom(dynamic, manual, legacy, modulePath, version);
        c.Ok? && c.value != [] && forall o :: o in c.value ==> NormalizeUrl(o) != NormalizeUrl(url))
  {
    CandidatesSpec(dynamic, manual, legacy, modulePath, version);
  }

  /** Every URL is allowed for a non-blank module when there are no overrides at all. */
  lemma UrlAllowedWithoutOverrides(modulePath: string, url: string, version: Option<string>)
    requires Strip(modulePath) != []
    ensures UrlAllowed(map[], map[], map[], modulePath, url, version) == Ok(true)
  {
    NoOverridesNoCandidates(modulePath, version);
  }

  /** The `git://` and `https://` spellings of an overridden URL are allowed alike. */
  lemma UrlAllowedEitherScheme(dynamic: map<OverrideKey, string>, manual: map<OverrideKey, string>,
                               legacy: map<string, seq<string>>, modulePath: string, rest: string, version: Option<string>)
    requires Trimmed(rest)
    ensures UrlAllowed(dynamic, manual, legacy, modulePath, "git://" + rest, version)
      == UrlAllowed(dynamic, manual, legacy, modulePath, "https://" + rest, version)
  {
    NormalizeGitScheme(rest);
  }

  // ---------------------------------------------------------------------------
  // Metadata cache
  // ---------------------------------------------------------------------------

  /** `_cache_metadata_key`: the (module path, version) pair. */
  type CacheKey = (string, string)

  /** One cached entry; a field the file did not have is empty. */
  datatype CacheEntry = CacheEntry(vcsUrl: string, commit: string, timestamp: string, subdir: string, ref: string)

  /** What `get_cached_metadata` returns. */
  datatype Metadata = Metadata(modulePath: string, version: string, vcsUrl: string, vcsHash: string,
                               vcsRef: string, timestamp: string, subdir: string)

  /** A full commit hash: exactly forty hex digits of either case. */
  predicate IsFullCommit(commit: string) {
    |commit| == 40 && AllHex(commit)
  }

  /**
   * What `prune_metadata_cache` does with one entry: keep it (`Ok(true)`),
   * drop it (`Ok(false)`) or raise.
   */
  function KeepEntry(dynamic: map<OverrideKey, string>, manual: map<OverrideKey, string>,
                     legacy: map<string, seq<string>>, key: CacheKey, e: CacheEntry): (r: Result<bool>)
  {
    if e.vcsUrl == [] || e.commit == [] then Ok(false)
    else if |e.commit| != 40 || !AllHex(e.commit) then Ok(false)
    else UrlAllowed(dynamic, manual, legacy, key.0, e.vcsUrl, Some(key.1))
  }

  /**
   * An entry is kept exactly when it has a URL, a full commit hash, and its
   * URL is allowed by the overrides; the check raises exactly when an
   * entry passes the first two tests and its module path is blank.
   */
  lemma KeepEntrySpec(dynamic: map<OverrideKey, string>, manual: map<OverrideKey, string>,
                      legacy: map<string, seq<string>>, key: CacheKey, e: CacheEntry)
    ensures var r := KeepEntry(dynamic, manual, legacy, key, e);
      && (r == Ok(true) <==>
        e.vcsUrl != [] && IsFullCommit(e.commit) && UrlAllowed(dynamic, manual, legacy, key.0, e.vcsUrl, Some(key.1)) == Ok(true))
      && (r.Err? <==> e.vcsUrl != [] && IsFullCommit(e.commit) && Strip(key.0) == [])
  {
    UrlAllowedSpec(dynamic, manual, legacy, key.0, e.vcsUrl, Some(key.1));
  }

  /** Without overrides, pruning keeps exactly the complete entries of non-blank modules. */
  lemma KeepWithoutOverrides(key: CacheKey, e: CacheEntry)
    requires Strip(key.0) != []
    ensures KeepEntry(map[], map[], map[], key, e) == Ok(e.vcsUrl != [] && IsFullCommit(e.commit))
  {
    UrlAllowedWithoutOverrides(key.0, e.vcsUrl, Some(key.1));
  }

  /** Storing `e` under `key` changes the cache: the key is missing or holds another entry. */
  predicate ChangesEntry(cache: map<CacheKey, CacheEntry>, key: CacheKey, e: CacheEntry) {
    key !in cache || cache[key] != e
  }

  /**
   * The loop of `prune_metadata_cache` for a given verdict per entry: goes
   * through the keys in some order, removes each entry whose verdict is to
   * drop it, and stops at the first entry whose verdict is to raise. Nothing
   * is ever changed or added; `removed` says whether anything was removed.
   */
  method PruneBy(cache0: map<CacheKey, CacheEntry>, verdict: (CacheKey, CacheEntry) -> Result<bool>)
    returns (cache: map<CacheKey, CacheEntry>, removed: bool, raised: bool)
    ensures raised <==> exists k :: k in cache0 && verdict(k, cache0[k]).Err?
    ensures forall k :: k in cache ==> k in cache0 && cache[k] == cache0[k]
    ensures forall k :: k in cache0 && k !in cache ==> verdict(k, cache0[k]) == Ok(false)
    ensures forall k :: k in cache0 && verdict(k, cache0[k]) == Ok(true) ==> k in cache
    ensures !raised ==> forall k :: k in cache ==> verdict(k, cache0[k]) == Ok(true)
    ensures removed <==> cache.Keys != cache0.Keys
  {
    cache := cache0;
    removed, raised := false, false;
    var keys := cache0.Keys;
    while keys != {}
      invariant keys <= cache0.Keys
      invariant forall k :: k in cache ==> k in cache0 && cache[k] == cache0[k]
      invariant forall k :: k in keys ==> k in cache
      invariant forall k :: k in cache0 && k !in keys ==> verdict(k, cache0[k]) == Ok(k in cache)
      invariant removed <==> cache.Keys != cache0.Keys
      decreases keys
    {
      var key :| key in keys;
      var v := verdict(key, cache[key]);
      if v.Err? {
        raised := true;
        return;
      }
      if !v.value {
        cache := cache - {key};
        removed := true;
      }
      keys := keys - {key};
    }
  }

  /**
   * One lookup step of `repo_override_candidates`: the table's URL for
   * `key` is appended when it is non-empty and not yet listed.
   */
  method AppendLookup(out: seq<string>, ghost seen: seq<string>, table: map<OverrideKey, string>, key: OverrideKey)
    returns (r: seq<string>)
    requires out == Dedup(seen)
    ensures r == Dedup(seen + Lookup(table, key))
  {
    r := out;
    if key in table && table[key] != [] {
      DedupSnoc(seen, table[key]);
      if table[key] !in out {
        r := out + [table[key]];
      }
    } else {
      assert seen + Lookup(table, key) == seen;
    }
  }

  /** The fetcher's module-level override tables and metadata cache. */
  class FetcherState {
    /** `MODULE_REPO_OVERRIDES`: written by `--set-repo`. */
    var dynamicOverrides: map<OverrideKey, string>
    /** `MODULE_REPO_OVERRIDES_DIRTY` */
    var repoOverridesDirty: bool
    /** `MANUAL_OVERRIDES`: kept under version control. */
    var manualOverrides: map<OverrideKey, string>
    /** `REPO_OVERRIDES`: the legacy per-module lists. */
    var legacyOverrides: map<string, seq<string>>
    /** `MODULE_METADATA_CACHE` */
    var metadataCache: map<CacheKey, CacheEntry>
    /** `MODULE_METADATA_CACHE_DIRTY` */
    var metadataDirty: bool

    /** The tables as the script starts: all empty, nothing to write back. */
    constructor ()
      ensures dynamicOverrides == map[] && manualOverrides == map[] && legacyOverrides == map[]
      ensures metadataCache == map[] && !metadataDirty && !repoOverridesDirty
    {
      dynamicOverrides := map[];
      repoOverridesDirty := false;
      manualOverrides := map[];
      legacyOverrides := map[];
      metadataCache := map[];
      metadataDirty := false;
    }

    /** `load_manual_overrides`: the manual table becomes what the file assigns. */
    method LoadManualOverrides(entries: seq<(string, Option<string>)>)
      modifies this
      ensures LastWins(manualOverrides, map[], OverrideEntries(entries))
      ensures dynamicOverrides == old(dynamicOverrides) && repoOverridesDirty == old(repoOverridesDirty)
      ensures legacyOverrides == old(legacyOverrides)
      ensures metadataCache == old(metadataCache) && metadataDirty == old(metadataDirty)
    {
      manualOverrides := LoadOverridesFromFile(map[], entries);
    }

    /** `load_repo_overrides`: the dynamic table becomes what the file assigns, and is clean. */
    method LoadRepoOverrides(entries: seq<(string, Option<string>)>)
      modifies this
      ensures LastWins(dynamicOverrides, map[], OverrideEntries(entries)) && !repoOverridesDirty
      ensures manualOverrides == old(manualOverrides) && legacyOverrides == old(legacyOverrides)
      ensures metadataCache == old(metadataCache) && metadataDirty == old(metadataDirty)
    {
      dynamicOverrides := LoadOverridesFromFile(map[], entries);
      repoOverridesDirty := false;
    }

    /** `repo_override_candidates`, appending each applicable override unless already listed. */
    method RepoOverrideCandidates(modulePath: string, version: Option<string>) returns (r: Result<seq<string>>)
      ensures r == CandidatesFrom(dynamicOverrides, manualOverrides, legacyOverrides, modulePath, version)
    {
      var keyResult := NormaliseOverrideKey(modulePath, version);
      var wildcardResult := NormaliseOverrideKey(modulePath, None);
      if keyResult.Err? || wildcardResult.Err? {
        return Err("module path for override cannot be empty");
      }
      var key, wildcard := keyResult.value, wildcardResult.value;
      var dynamic, manual := dynamicOverrides, manualOverrides;
      var overrides: seq<string> := [];
      overrides := AppendLookup(overrides, [], dynamic, key);
      overrides := AppendLookup(overrides, Lookup(dynamic, key), dynamic, wildcard);
      ghost var seen := Lookup(dynamic, key) + Lookup(dynamic, wildcard);
      overrides := AppendLookup(overrides, seen, manual, key);
      seen := seen + Lookup(manual, key);
      overrides := AppendLookup(overrides, seen, manual, wildcard);
      seen := seen + Lookup(manual, wildcard);
      var legacy := if modulePath in legacyOverrides then legacyOverrides[modulePath] else [];
      overrides := AppendNew(overrides, seen, legacy);
      r := Ok(overrides);
    }

    /** Whether `k` of `cache` survives pruning under the current overrides. */
    ghost function Verdict(cache: map<CacheKey, CacheEntry>, k: CacheKey): (r: Result<bool>)
      reads this`dynamicOverrides, this`manualOverrides, this`legacyOverrides
      requires k in cache
    {
      KeepEntry(dynamicOverrides, manualOverrides, legacyOverrides, k, cache[k])
    }

    /**
     * `prune_metadata_cache`. It raises (`raised`) exactly when some entry's
     * verdict is to raise. Entries are only ever removed, never changed, and
     * only entries whose verdict is to drop them; those to keep stay. When
     * it does not raise, what remains is exactly the entries to keep, and
     * the dirty flag is set when anything was removed (and left as it was
     * otherwise, or on a raise).
     */
    method PruneMetadataCache() returns (raised: bool)
      modifies this
      ensures dynamicOverrides == old(dynamicOverrides) && manualOverrides == old(manualOverrides)
      ensures legacyOverrides == old(legacyOverrides) && repoOverridesDirty == old(repoOverridesDirty)
      ensures raised <==> exists k :: k in old(metadataCache) && Verdict(old(metadataCache), k).Err?
      ensures forall k :: k in metadataCache ==> k in old(metadataCache) && metadataCache[k] == old(metadataCache)[k]
      ensures forall k :: k in old(metadataCache) && k !in metadataCache ==> Verdict(old(metadataCache), k) == Ok(false)
      ensures forall k :: k in old(metadataCache) && Verdict(old(metadataCache), k) == Ok(true) ==> k in metadataCache
      ensures !raised ==> forall k :: k in metadataCache ==> Verdict(old(metadataCache), k) == Ok(true)
      ensures !raised ==> (metadataDirty <==> old(metadataDirty) || metadataCache.Keys != old(metadataCache).Keys)
      ensures raised ==> metadataDirty == old(metadataDirty)
    {
      var dynamic, manual, legacy := dynamicOverrides, manualOverrides, legacyOverrides;
      var removed;
      metadataCache, removed, raised := PruneBy(metadataCache, (k, e) => KeepEntry(dynamic, manual, legacy, k, e));
      if removed && !raised {
        metadataDirty := true;
      }
    }

    /**
     * `update_metadata_cache`: the key maps to the new entry and no other
     * key changes; the dirty flag is raised only when `dirty` is set and
     * the stored entry actually changed. Afterwards the entry reads back
     * through `GetCachedMetadata`.
     */
    method UpdateMetadataCache(modulePath: string, version: string, vcsUrl: string, commit: string,
                               timestamp: string, subdir: string, ref: string, dirty: bool)
      modifies this
      ensures metadataCache == old(metadataCache)[(modulePath, version) := CacheEntry(vcsUrl, commit, timestamp, subdir, ref)]
      ensures metadataDirty <==> old(metadataDirty) || (dirty && ChangesEntry(old(metadataCache), (modulePath, version),
                                                                   CacheEntry(vcsUrl, commit, timestamp, subdir, ref)))
      ensures dynamicOverrides == old(dynamicOverrides) && manualOverrides == old(manualOverrides)
      ensures legacyOverrides == old(legacyOverrides) && repoOverridesDirty == old(repoOverridesDirty)
      ensures var m := GetCachedMetadata(modulePath, version);
        && m.Some?
        && m.value.vcsUrl == vcsUrl && m.value.vcsHash == commit && m.value.vcsRef == ref && m.value.subdir == subdir
        && m.value.timestamp == (if timestamp != [] then timestamp else PseudoVersion.DeriveTimestampFromVersion(version))
    {
      var key := (modulePath, version);
      var value := CacheEntry(vcsUrl, commit, timestamp, subdir, ref);
      if ChangesEntry(metadataCache, key, value) {
        metadataCache := metadataCache[key := value];
        if dirty {
          metadataDirty := true;
        }
      }
    }

    /**
     * `get_cached_metadata`: the cached facts for the pair, if any. The
     * timestamp is the cached one, or the one derived from the version when
     * none was cached, so it is never empty.
     */
    function GetCachedMetadata(modulePath: string, version: string): (r: Option<Metadata>)
      reads this
      ensures r.Some? <==> (modulePath, version) in metadataCache
      ensures r.Some? ==>
        var e := metadataCache[(modulePath, version)];
        && r.value.modulePath == modulePath && r.value.version == version
        && r.value.vcsUrl == e.vcsUrl && r.value.vcsHash == e.commit && r.value.vcsRef == e.ref && r.value.subdir == e.subdir
        && r.value.timestamp == (if e.timestamp != [] then e.timestamp else PseudoVersion.DeriveTimestampFromVersion(version))
        && r.value.timestamp != []
        && (e.timestamp == [] ==> PseudoVersion.IsIsoShape(r.value.timestamp))
    {
      var key := (modulePath, version);
      if key !in metadataCache then None
      else
        var entry := metadataCache[key];
        var timestamp := if entry.timestamp != [] then entry.timestamp else PseudoVersion.DeriveTimestampFromVersion(version);
        Some(Metadata(modulePath, version, entry.vcsUrl, entry.commit, entry.ref, timestamp, entry.subdir))
    }
  }
}
