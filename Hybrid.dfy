/**
 * `generate_hybrid_files`: every module is classified as fetched over
 * `git://` (from its repository) or `gomod://` (from the module proxy) by
 * the `--git` and `--gomod` path prefixes, and three include files are
 * written: the `gomod://` entries sorted by module path, the `git://`
 * entries taken from `go-mod-git.inc` once per cache hash, and the
 * `GO_MODULE_CACHE_DATA` metadata of the git modules.
 */
module Hybrid {
  import opened Wrappers
  import opened Strings
  import opened Collections
  import opened GitInc

  /** A module record: its path, its version and its VCS cache hash (`''` when the record has none). */
  datatype Module = Module(path: string, version: string, vcsHash: string)

  // ---------------------------------------------------------------------------
  // Classification
  // ---------------------------------------------------------------------------

  /** The path starts with one of the prefixes. */
  predicate AnyPrefix(path: string, prefixes: seq<string>) {
    exists i :: 0 <= i < |prefixes| && StartsWith(path, prefixes[i])
  }

  /**
   * The classification rule: a module goes to git when a `--git` prefix
   * matches it, or when only `--gomod` prefixes were given and none of them
   * matches it; everything else goes to gomod.
   */
  predicate GoesToGit(path: string, gitPrefixes: seq<string>, gomodPrefixes: seq<string>) {
    AnyPrefix(path, gitPrefixes) || (gitPrefixes == [] && gomodPrefixes != [] && !AnyPrefix(path, gomodPrefixes))
  }

  /** The flag updates of the classification loop for one module; the result is `not is_gomod`. */
  method ClassifyModule(path: string, gitPrefixes: seq<string>, gomodPrefixes: seq<string>) returns (toGit: bool)
    ensures toGit <==> GoesToGit(path, gitPrefixes, gomodPrefixes)
    ensures AnyPrefix(path, gitPrefixes) ==> toGit
    ensures gitPrefixes != [] && !AnyPrefix(path, gitPrefixes) ==> !toGit
    ensures gitPrefixes == [] && gomodPrefixes != [] ==> (toGit <==> !AnyPrefix(path, gomodPrefixes))
    ensures gitPrefixes == [] && gomodPrefixes == [] ==> !toGit
  {
    var isGit := AnyPrefix(path, gitPrefixes);
    var isGomod := AnyPrefix(path, gomodPrefixes);
    if isGit && isGomod {
      isGomod := false;
    }
    if gitPrefixes != [] && !isGit && !isGomod {
      isGomod := true;
    } else if gomodPrefixes != [] && !isGit && !isGomod {
      isGit := true;
    } else if gitPrefixes == [] && gomodPrefixes == [] {
      isGomod := true;
    }
    toGit := !isGomod;
  }

  /** The modules that go to git, in input order. */
  function GitSide(mods: seq<Module>, gitPrefixes: seq<string>, gomodPrefixes: seq<string>): (r: seq<Module>)
    ensures |r| <= |mods|
  {
    if |mods| == 0 then []
    else
      var init := GitSide(mods[..|mods| - 1], gitPrefixes, gomodPrefixes);
      if GoesToGit(mods[|mods| - 1].path, gitPrefixes, gomodPrefixes) then init + [mods[|mods| - 1]] else init
  }

  /** The modules that go to gomod, in input order. */
  function GomodSide(mods: seq<Module>, gitPrefixes: seq<string>, gomodPrefixes: seq<string>): (r: seq<Module>)
    ensures |r| <= |mods|
  {
    if |mods| == 0 then []
    else
      var init := GomodSide(mods[..|mods| - 1], gitPrefixes, gomodPrefixes);
      if GoesToGit(mods[|mods| - 1].path, gitPrefixes, gomodPrefixes) then init else init + [mods[|mods| - 1]]
  }

  /**
   * Every module lands on exactly one side: together the two sides hold
   * the input modules, the git side only modules the rule sends to git
   * and the gomod side only the others.
   */
  lemma {:induction false} SidesPartition(mods: seq<Module>, gitPrefixes: seq<string>, gomodPrefixes: seq<string>)
    ensures multiset(GitSide(mods, gitPrefixes, gomodPrefixes)) + multiset(GomodSide(mods, gitPrefixes, gomodPrefixes)) == multiset(mods)
    ensures forall m :: m in GitSide(mods, gitPrefixes, gomodPrefixes) ==> GoesToGit(m.path, gitPrefixes, gomodPrefixes)
    ensures forall m :: m in GomodSide(mods, gitPrefixes, gomodPrefixes) ==> !GoesToGit(m.path, gitPrefixes, gomodPrefixes)
  {
    if |mods| > 0 {
      var init, last := mods[..|mods| - 1], mods[|mods| - 1];
      SidesPartition(init, gitPrefixes, gomodPrefixes);
      assert mods == init + [last];
      var g, o := GitSide(init, gitPrefixes, gomodPrefixes), GomodSide(init, gitPrefixes, gomodPrefixes);
      if GoesToGit(last.path, gitPrefixes, gomodPrefixes) {
        assert GitSide(mods, gitPrefixes, gomodPrefixes) == g + [last];
        assert GomodSide(mods, gitPrefixes, gomodPrefixes) == o;
      } else {
        assert GitSide(mods, gitPrefixes, gomodPrefixes) == g;
        assert GomodSide(mods, gitPrefixes, gomodPrefixes) == o + [last];
      }
    }
  }

  /** The classification loop of `generate_hybrid_files`. */
  method Classify(modules: seq<Module>, gitPrefixes: seq<string>, gomodPrefixes: seq<string>)
    returns (gitModules: seq<Module>, gomodModules: seq<Module>)
    ensures gitModules == GitSide(modules, gitPrefixes, gomodPrefixes)
    ensures gomodModules == GomodSide(modules, gitPrefixes, gomodPrefixes)
  {
    gitModules, gomodModules := [], [];
    var n := 0;
    while n < |modules|
      invariant 0 <= n <= |modules|
      invariant gitModules == GitSide(modules[..n], gitPrefixes, gomodPrefixes)
      invariant gomodModules == GomodSide(modules[..n], gitPrefixes, gomodPrefixes)
    {
      assert modules[..n + 1][..n] == modules[..n];
      var toGit := ClassifyModule(modules[n].path, gitPrefixes, gomodPrefixes);
      if toGit {
        gitModules := gitModules + [modules[n]];
      } else {
        gomodModules := gomodModules + [modules[n]];
      }
      n := n + 1;
    }
    assert modules[..|modules|] == modules;
  }

  // ---------------------------------------------------------------------------
  // Module-path order: modules sorted by their path
  // ---------------------------------------------------------------------------

  predicate PathLe(a: Module, b: Module) {
    Le(a.path, b.path)
  }

  lemma PathLeTotalPreorder()
    ensures TotalPreorder(PathLe)
  {
    forall a: Module, b: Module ensures PathLe(a, b) || PathLe(b, a) {
      LeTotal(a.path, b.path);
    }
    forall a: Module, b: Module, c: Module | PathLe(a, b) && PathLe(b, c) ensures PathLe(a, c) {
      LeTrans(a.path, b.path, c.path);
    }
  }

  /** The modules in module-path order. */
  function SortByPath(mods: seq<Module>): (r: seq<Module>)
    ensures multiset(r) == multiset(mods)
    ensures forall i, j :: 0 <= i < j < |r| ==> Le(r[i].path, r[j].path)
  {
    PathLeTotalPreorder();
    var r := Sort(mods, PathLe);
    assert forall i, j :: 0 <= i < j < |r| ==> PathLe(r[i], r[j]);
    r
  }

  /** Modules with the same path keep their order. */
  lemma SortByPathStable(mods: seq<Module>)
    ensures forall m :: Tied(SortByPath(mods), m, PathLe) == Tied(mods, m, PathLe)
  {
    PathLeTotalPreorder();
    SortStable(mods, PathLe);
  }

  // ---------------------------------------------------------------------------
  // go-mod-hybrid-gomod.inc
  // ---------------------------------------------------------------------------

  const GomodHeader: seq<string> := [
    "# Generated by oe-go-mod-fetcher-hybrid.py",
    "# Go modules fetched from proxy.golang.org (fast path)",
    "#",
    "# These modules are fetched as pre-built zip files from the Go proxy.",
    "# They do not provide VCS commit-level provenance but are much faster.",
    "",
    "inherit go-mod",
    ""
  ]

  /** The `module@version` key of the checksum table. */
  function ChecksumKey(m: Module): string {
    m.path + "@" + m.version
  }

  const GomodEntryPrefix: string := "SRC_URI += \"gomod://"
  const ChecksumParam: string := ";sha256sum="

  /** The `gomod://` entry of a module, with its checksum inline when the table has one. */
  function GomodLine(m: Module, checksums: map<string, string>): (line: string)
  {
    var base := GomodEntryPrefix + m.path + ";version=" + m.version;
    if ChecksumKey(m) in checksums then base + ChecksumParam + checksums[ChecksumKey(m)] + "\"" else base + "\""
  }

  /**
   * A gomod entry carries `;sha256sum=` exactly when the checksum table
   * has its `module@version`. (Go module paths and versions hold no `;`.)
   */
  lemma GomodLineChecksum(m: Module, checksums: map<string, string>)
    requires ';' !in m.path && ';' !in m.version
    ensures Contains(GomodLine(m, checksums), ChecksumParam) <==> ChecksumKey(m) in checksums
    ensures ChecksumKey(m) in checksums ==> EndsWith(GomodLine(m, checksums), checksums[ChecksumKey(m)] + "\"")
  {
    var head := GomodEntryPrefix + m.path;
    var rest := "version=" + m.version + "\"";
    assert GomodEntryPrefix + m.path + ";version=" + m.version == head + ";" + "version=" + m.version;
    if ChecksumKey(m) in checksums {
      var tail := checksums[ChecksumKey(m)] + "\"";
      var base := GomodEntryPrefix + m.path + ";version=" + m.version;
      assert GomodLine(m, checksums) == base + ChecksumParam + tail;
      ContainsIn(base, ChecksumParam, tail);
    } else {
      var line := GomodLine(m, checksums);
      assert line == head + [';'] + rest;
      assert ';' !in GomodEntryPrefix;
      OnlyCharAt(head, ';', rest);
      assert line[|head| + 1] == 'v';
      NotContainsBut(line, ChecksumParam, |head|);
    }
  }

  function GomodLines(mods: seq<Module>, checksums: map<string, string>): (r: seq<string>)
    ensures |r| == |mods|
  {
    if |mods| == 0 then [] else GomodLines(mods[..|mods| - 1], checksums) + [GomodLine(mods[|mods| - 1], checksums)]
  }

  /** One iteration of the gomod include loop: append the module's entry. */
  method EmitGomodModule(done: seq<Module>, m: Module, checksums: map<string, string>, lines: seq<string>)
    returns (lines': seq<string>)
    requires lines == GomodHeader + GomodLines(done, checksums)
    ensures lines' == GomodHeader + GomodLines(done + [m], checksums)
  {
    assert (done + [m])[..|done|] == done;
    var key := m.path + "@" + m.version;
    var line;
    if key in checksums {
      line := GomodEntryPrefix + m.path + ";version=" + m.version + ChecksumParam + checksums[key] + "\"";
    } else {
      line := GomodEntryPrefix + m.path + ";version=" + m.version + "\"";
    }
    lines' := lines + [line];
  }

  /** The lines of `go-mod-hybrid-gomod.inc`: the header, then one entry per module in path order. */
  method GomodInclude(gomodModules: seq<Module>, checksums: map<string, string>) returns (lines: seq<string>)
    ensures lines == GomodHeader + GomodLines(SortByPath(gomodModules), checksums)
  {
    var sorted := SortByPath(gomodModules);
    lines := GomodHeader;
    var n := 0;
    while n < |sorted|
      invariant 0 <= n <= |sorted|
      invariant lines == GomodHeader + GomodLines(sorted[..n], checksums)
    {
      assert sorted[..n + 1] == sorted[..n] + [sorted[n]];
      lines := EmitGomodModule(sorted[..n], sorted[n], checksums, lines);
      n := n + 1;
    }
    assert sorted[..|sorted|] == sorted;
  }

  // ---------------------------------------------------------------------------
  // go-mod-hybrid-git.inc
  // ---------------------------------------------------------------------------

  const GitHeader: seq<string> := [
    "# Generated by oe-go-mod-fetcher-hybrid.py",
    "# Go modules fetched from git repositories (VCS path)",
    "#",
    "# These modules are fetched directly from their git repositories.",
    "# They provide full VCS provenance and allow easy SRCREV bumping.",
    ""
  ]

  /** The cache hashes of the modules that `go-mod-git.inc` knows, in module order, repeats included. */
  function KnownHashes(mods: seq<Module>, vcsInfo: map<string, GitIncInfo>): (r: seq<string>)
    ensures forall k :: 0 <= k < |r| ==> r[k] in vcsInfo
  {
    if |mods| == 0 then []
    else
      var init := KnownHashes(mods[..|mods| - 1], vcsInfo);
      if mods[|mods| - 1].vcsHash in vcsInfo then init + [mods[|mods| - 1].vcsHash] else init
  }

  /** The recorded lines of the given cache hashes. */
  function FullLines(hashes: seq<string>, vcsInfo: map<string, GitIncInfo>): (r: seq<string>)
    requires forall k :: 0 <= k < |hashes| ==> hashes[k] in vcsInfo
    ensures |r| == |hashes|
  {
    if |hashes| == 0 then []
    else FullLines(hashes[..|hashes| - 1], vcsInfo) + [vcsInfo[hashes[|hashes| - 1]].fullLine]
  }

  lemma DedupKnown(mods: seq<Module>, vcsInfo: map<string, GitIncInfo>)
    ensures forall k :: 0 <= k < |Dedup(KnownHashes(mods, vcsInfo))| ==> Dedup(KnownHashes(mods, vcsInfo))[k] in vcsInfo
  {
    DedupSpec(KnownHashes(mods, vcsInfo));
  }

  /** The cache hashes whose lines the git include file carries: each known hash once, at its first module. */
  function EmittedHashes(mods: seq<Module>, vcsInfo: map<string, GitIncInfo>): (r: seq<string>)
    ensures forall k :: 0 <= k < |r| ==> r[k] in vcsInfo
  {
    DedupKnown(mods, vcsInfo);
    Dedup(KnownHashes(mods, vcsInfo))
  }

  /**
   * Each emitted hash is a hash of one of the modules, is known to
   * `go-mod-git.inc`, and is emitted once; every known hash of a module
   * is emitted.
   */
  lemma EmittedHashesSpec(mods: seq<Module>, vcsInfo: map<string, GitIncInfo>)
    ensures NoDuplicates(EmittedHashes(mods, vcsInfo))
    ensures forall h :: h in EmittedHashes(mods, vcsInfo) <==> h in vcsInfo && exists m :: m in mods && m.vcsHash == h
  {
    var known := KnownHashes(mods, vcsInfo);
    DedupSpec(known);
    KnownHashesSpec(mods, vcsInfo);
  }

  lemma {:induction false} KnownHashesSpec(mods: seq<Module>, vcsInfo: map<string, GitIncInfo>)
    ensures forall h :: h in KnownHashes(mods, vcsInfo) <==> h in vcsInfo && exists m :: m in mods && m.vcsHash == h
  {
    if |mods| > 0 {
      var init := mods[..|mods| - 1];
      var last := mods[|mods| - 1];
      KnownHashesSpec(init, vcsInfo);
      assert mods == init + [last];
      forall h | h in vcsInfo && (exists m :: m in mods && m.vcsHash == h) ensures h in KnownHashes(mods, vcsInfo) {
        var m :| m in mods && m.vcsHash == h;
        if m != last {
          assert m in init;
        }
      }
    }
  }

  /** One more module adds its hash when it is known and not yet emitted. */
  lemma EmittedSnoc(mods: seq<Module>, m: Module, vcsInfo: map<string, GitIncInfo>)
    ensures EmittedHashes(mods + [m], vcsInfo)
      == if m.vcsHash in vcsInfo && m.vcsHash !in EmittedHashes(mods, vcsInfo)
         then EmittedHashes(mods, vcsInfo) + [m.vcsHash] else EmittedHashes(mods, vcsInfo)
  {
    assert (mods + [m])[..|mods|] == mods;
    if m.vcsHash in vcsInfo {
      DedupSnoc(KnownHashes(mods, vcsInfo), m.vcsHash);
    }
  }

  lemma FullLinesSnoc(hashes: seq<string>, h: string, vcsInfo: map<string, GitIncInfo>)
    requires forall k :: 0 <= k < |hashes| ==> hashes[k] in vcsInfo
    requires h in vcsInfo
    ensures FullLines(hashes + [h], vcsInfo) == FullLines(hashes, vcsInfo) + [vcsInfo[h].fullLine]
  {
    assert (hashes + [h])[..|hashes|] == hashes;
  }

  /** One iteration of the git include loop, stated on the emitted hashes. */
  lemma GitStep(done: seq<Module>, m: Module, vcsInfo: map<string, GitIncInfo>, added: set<string>)
    requires forall h :: h in added <==> h in EmittedHashes(done, vcsInfo)
    ensures m.vcsHash in vcsInfo && m.vcsHash !in added ==>
      FullLines(EmittedHashes(done + [m], vcsInfo), vcsInfo) == FullLines(EmittedHashes(done, vcsInfo), vcsInfo) + [vcsInfo[m.vcsHash].fullLine]
    ensures m.vcsHash in vcsInfo && m.vcsHash !in added ==>
      forall h :: h in added + {m.vcsHash} <==> h in EmittedHashes(done + [m], vcsInfo)
    ensures !(m.vcsHash in vcsInfo && m.vcsHash !in added) ==>
      EmittedHashes(done + [m], vcsInfo) == EmittedHashes(done, vcsInfo)
  {
    EmittedSnoc(done, m, vcsInfo);
    if m.vcsHash in vcsInfo && m.vcsHash !in added {
      FullLinesSnoc(EmittedHashes(done, vcsInfo), m.vcsHash, vcsInfo);
    }
  }

  /** One iteration of the git include loop: emit the module's recorded line unless it is unknown or already out. */
  method EmitModule(done: seq<Module>, m: Module, vcsInfo: map<string, GitIncInfo>, lines: seq<string>, added: set<string>)
    returns (lines': seq<string>, added': set<string>)
    requires forall h :: h in added <==> h in EmittedHashes(done, vcsInfo)
    requires lines == GitHeader + FullLines(EmittedHashes(done, vcsInfo), vcsInfo)
    ensures forall h :: h in added' <==> h in EmittedHashes(done + [m], vcsInfo)
    ensures lines' == GitHeader + FullLines(EmittedHashes(done + [m], vcsInfo), vcsInfo)
  {
    GitStep(done, m, vcsInfo, added);
    lines', added' := lines, added;
    if m.vcsHash in vcsInfo && m.vcsHash !in added {
      lines' := lines + [vcsInfo[m.vcsHash].fullLine];
      added' := added + {m.vcsHash};
    }
  }

  /** The lines of `go-mod-hybrid-git.inc`: the header, then the recorded line of each emitted hash. */
  method GitInclude(gitModules: seq<Module>, vcsInfo: map<string, GitIncInfo>) returns (lines: seq<string>)
    ensures lines == GitHeader + FullLines(EmittedHashes(SortByPath(gitModules), vcsInfo), vcsInfo)
  {
    var sorted := SortByPath(gitModules);
    lines := GitHeader;
    var added: set<string> := {};
    var n := 0;
    while n < |sorted|
      invariant 0 <= n <= |sorted|
      invariant forall h :: h in added <==> h in EmittedHashes(sorted[..n], vcsInfo)
      invariant lines == GitHeader + FullLines(EmittedHashes(sorted[..n], vcsInfo), vcsInfo)
    {
      assert sorted[..n + 1] == sorted[..n] + [sorted[n]];
      lines, added := EmitModule(sorted[..n], sorted[n], vcsInfo, lines, added);
      n := n + 1;
    }
    assert sorted[..|sorted|] == sorted;
  }

  // ---------------------------------------------------------------------------
  // go-mod-hybrid-cache.inc
  // ---------------------------------------------------------------------------

  const CacheHeader: seq<string> := [
    "# Generated by oe-go-mod-fetcher-hybrid.py",
    "# Metadata for git-fetched modules (VCS path)",
    "# Used by go-mod-vcs.bbclass to build module cache from git checkouts",
    "",
    "inherit go-mod-vcs",
    "",
    "# Module metadata for cache building (one module per line)"
  ]

  const EmptyCacheData: string := "GO_MODULE_CACHE_DATA = '[]'"
  const CacheDataOpen: string := "GO_MODULE_CACHE_DATA = '[\\"

  /**
   * The lines of `go-mod-hybrid-cache.inc`. The compact JSON text of a
   * module record is given by `encode`. Without git modules the data is
   * exactly `'[]'`; otherwise one line per git module in path order
   * follows the opening line, every one but the last ending in `,\` and
   * the last in `]'`.
   */
  method CacheInclude(gitModules: seq<Module>, encode: Module -> string) returns (lines: seq<string>)
    ensures gitModules == [] ==> lines == CacheHeader + [EmptyCacheData]
    ensures gitModules != [] ==> var sorted := SortByPath(gitModules);
      && |lines| == |CacheHeader| + 1 + |sorted|
      && lines[..|CacheHeader|] == CacheHeader && lines[|CacheHeader|] == CacheDataOpen
      && (forall i :: 0 <= i < |sorted| - 1 ==> lines[|CacheHeader| + 1 + i] == encode(sorted[i]) + ",\\")
      && lines[|lines| - 1] == encode(sorted[|sorted| - 1]) + "]'"
  {
    lines := CacheHeader;
    if gitModules != [] {
      lines := lines + [CacheDataOpen];
      var sorted := SortByPath(gitModules);
      var i := 0;
      while i < |sorted|
        invariant 0 <= i <= |sorted|
        invariant |lines| == |CacheHeader| + 1 + i
        invariant lines[..|CacheHeader|] == CacheHeader && lines[|CacheHeader|] == CacheDataOpen
        invariant forall k :: 0 <= k < i ==> lines[|CacheHeader| + 1 + k] == encode(sorted[k]) + (if k < |sorted| - 1 then ",\\" else "]'")
      {
        var entry := encode(sorted[i]);
        if i < |sorted| - 1 {
          lines := lines + [entry + ",\\"];
        } else {
          lines := lines + [entry + "]'"];
        }
        i := i + 1;
      }
    } else {
      lines := lines + [EmptyCacheData];
    }
  }
}
