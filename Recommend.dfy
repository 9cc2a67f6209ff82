/**
 * `--recommend`: the module paths are grouped under their first two path
 * components, each group weighed by the cache sizes of its modules, and the
 * 25 heaviest groups are split into ones to keep on `git://` (they match a
 * VCS-priority pattern) and ones worth moving to `gomod://` (over the size
 * threshold). The settings come from `hybrid-config.json`, merged over the
 * built-in defaults.
 */
module Recommend {
  import opened Wrappers
  import opened Strings
  import opened Collections
  import opened Hybrid

  // ---------------------------------------------------------------------------
  // Configuration (`load_hybrid_config`)
  // ---------------------------------------------------------------------------

  /** A value of the configuration object, as far as the settings read it. */
  datatype ConfigValue = PrefixList(prefixes: seq<string>) | Bytes(n: int) | OtherValue

  const VcsPriorityKey: string := "vcs_priority_prefixes"
  const ThresholdKey: string := "size_threshold_bytes"
  const DefaultGitKey: string := "default_git_prefixes"

  const DefaultConfig: map<string, ConfigValue> := map[
    VcsPriorityKey := PrefixList(["github.com/containerd", "github.com/rancher", "github.com/k3s-io", "k8s.io", "sigs.k8s.io"]),
    ThresholdKey := Bytes(1048576),
    DefaultGitKey := PrefixList(["github.com/containerd", "k8s.io", "sigs.k8s.io"])
  ]

  /**
   * The configuration: the built-in defaults when the file is missing,
   * unreadable or not valid JSON (`loaded` is `None`); otherwise the file's
   * object with every default key it lacks added. Keys the file sets keep
   * the file's values.
   */
  method LoadHybridConfig(loaded: Option<map<string, ConfigValue>>) returns (config: map<string, ConfigValue>)
    ensures loaded.None? ==> config == DefaultConfig
    ensures loaded.Some? ==> config.Keys == loaded.value.Keys + DefaultConfig.Keys
    ensures loaded.Some? ==> forall k :: k in loaded.value ==> config[k] == loaded.value[k]
    ensures loaded.Some? ==> forall k :: k in DefaultConfig && k !in loaded.value ==> config[k] == DefaultConfig[k]
  {
    if loaded.None? {
      return DefaultConfig;
    }
    config := loaded.value;
    var pending := DefaultConfig.Keys;
    while pending != {}
      invariant pending <= DefaultConfig.Keys
      invariant config.Keys == loaded.value.Keys + (DefaultConfig.Keys - pending)
      invariant forall k :: k in loaded.value ==> config[k] == loaded.value[k]
      invariant forall k :: k in DefaultConfig && k !in pending && k !in loaded.value ==> config[k] == DefaultConfig[k]
      decreases pending
    {
      var key :| key in pending;
      if key !in config {
        config := config[key := DefaultConfig[key]];
      }
      pending := pending - {key};
    }
  }

  /** Every setting is present after loading, so the fallbacks of `config.get` are never taken. */
  lemma SettingsPresent(loaded: Option<map<string, ConfigValue>>, config: map<string, ConfigValue>)
    requires config.Keys == (if loaded.Some? then loaded.value.Keys else {}) + DefaultConfig.Keys
    ensures VcsPriorityKey in config && ThresholdKey in config && DefaultGitKey in config
  {
    assert VcsPriorityKey in DefaultConfig && ThresholdKey in DefaultConfig && DefaultGitKey in DefaultConfig;
  }

  // ---------------------------------------------------------------------------
  // Prefixes and their sizes
  // ---------------------------------------------------------------------------

  /** The first two `/`-separated components of a module path, or the whole path when it has no `/`. */
  function PrefixOf(path: string): (r: string)
  {
    var parts := Split(path, '/');
    if |parts| >= 2 then parts[0] + "/" + parts[1] else path
  }

  /**
   * The prefix starts the path. Without a `/` it is the path itself;
   * otherwise it is the path's first two components, and it ends at the
   * end of the path or just before a `/`.
   */
  lemma PrefixOfSpec(path: string)
    ensures StartsWith(path, PrefixOf(path))
    ensures '/' in path ==> |Split(path, '/')| >= 2
    ensures '/' !in path ==> PrefixOf(path) == path
    ensures '/' in path ==> Split(PrefixOf(path), '/') == Split(path, '/')[..2]
    ensures '/' in path ==> |PrefixOf(path)| == |path| || path[|PrefixOf(path)|] == '/'
  {
    var parts := Split(path, '/');
    JoinSplit(path, '/');
    SplitHasSep(path, '/');
    if '/' !in path {
      SplitNoSep(path, '/');
    } else {
      var r := parts[0] + "/" + parts[1];
      assert Join(parts[..2], "/") == r;
      SplitJoin(parts[..2], '/');
      if |parts| == 2 {
        assert parts == parts[..2];
      } else {
        JoinAppend(parts[..2], parts[2..], "/");
        assert parts == parts[..2] + parts[2..];
        assert path == r + "/" + Join(parts[2..], "/");
        assert path[..|r|] == r;
      }
    }
  }

  /** The recorded size of the module's repository, zero when unknown. */
  function SizeOf(m: Module, sizes: map<string, nat>): nat {
    if m.vcsHash in sizes then sizes[m.vcsHash] else 0
  }

  /** The prefix of every module, in module order. */
  function Prefixes(mods: seq<Module>): (r: seq<string>)
    ensures |r| == |mods|
  {
    if |mods| == 0 then [] else Prefixes(mods[..|mods| - 1]) + [PrefixOf(mods[|mods| - 1].path)]
  }

  /** The total size of the modules under `prefix`. */
  function PrefixTotal(mods: seq<Module>, sizes: map<string, nat>, prefix: string): nat
  {
    if |mods| == 0 then 0
    else
      var m := mods[|mods| - 1];
      PrefixTotal(mods[..|mods| - 1], sizes, prefix) + (if PrefixOf(m.path) == prefix then SizeOf(m, sizes) else 0)
  }

  lemma PrefixesSnoc(mods: seq<Module>, m: Module, sizes: map<string, nat>)
    ensures Prefixes(mods + [m]) == Prefixes(mods) + [PrefixOf(m.path)]
    ensures forall p :: PrefixTotal(mods + [m], sizes, p) == PrefixTotal(mods, sizes, p) + (if PrefixOf(m.path) == p then SizeOf(m, sizes) else 0)
  {
    assert (mods + [m])[..|mods|] == mods;
  }

  /** Only prefixes of some module have a non-zero total. */
  lemma {:induction false} PrefixTotalOutside(mods: seq<Module>, sizes: map<string, nat>, p: string)
    requires p !in Prefixes(mods)
    ensures PrefixTotal(mods, sizes, p) == 0
  {
    if |mods| > 0 {
      var init := mods[..|mods| - 1];
      PrefixesSnoc(init, mods[|mods| - 1], sizes);
      assert mods == init + [mods[|mods| - 1]];
      PrefixTotalOutside(init, sizes, p);
    }
  }

  /** The size the prefix table holds for `p`, zero when absent. */
  function TableSize(table: map<string, nat>, p: string): nat {
    if p in table then table[p] else 0
  }

  /** Adds a module's size to its prefix's total; a new prefix joins the key order at the end. */
  method AddSize(order: seq<string>, table: map<string, nat>, prefix: string, size: nat)
    returns (order': seq<string>, table': map<string, nat>)
    requires forall p :: p in table <==> p in order
    ensures order' == if prefix in order then order else order + [prefix]
    ensures forall p :: p in table' <==> p in order'
    ensures forall p :: TableSize(table', p) == TableSize(table, p) + (if p == prefix then size else 0)
  {
    if prefix !in table {
      order' := order + [prefix];
      table' := table[prefix := size];
    } else {
      order' := order;
      table' := table[prefix := table[prefix] + size];
    }
  }

  lemma OrderStep(mods: seq<Module>, m: Module, order: seq<string>, order': seq<string>)
    requires order == Dedup(Prefixes(mods))
    requires order' == if PrefixOf(m.path) in order then order else order + [PrefixOf(m.path)]
    ensures order' == Dedup(Prefixes(mods + [m]))
  {
    assert (mods + [m])[..|mods|] == mods;
    DedupSnoc(Prefixes(mods), PrefixOf(m.path));
  }

  lemma TableStep(mods: seq<Module>, m: Module, sizes: map<string, nat>, table: map<string, nat>, table': map<string, nat>)
    requires forall p :: TableSize(table, p) == PrefixTotal(mods, sizes, p)
    requires forall p :: TableSize(table', p) == TableSize(table, p) + (if p == PrefixOf(m.path) then SizeOf(m, sizes) else 0)
    ensures forall p :: TableSize(table', p) == PrefixTotal(mods + [m], sizes, p)
  {
    PrefixesSnoc(mods, m, sizes);
  }

  /**
   * The accumulation loop: the prefixes in order of first appearance (the
   * `defaultdict`'s key order) and the total size under each of them.
   */
  method PrefixSizes(modules: seq<Module>, sizes: map<string, nat>) returns (order: seq<string>, table: map<string, nat>)
    ensures order == Dedup(Prefixes(modules))
    ensures forall p :: p in table <==> p in order
    ensures forall p :: TableSize(table, p) == PrefixTotal(modules, sizes, p)
  {
    order, table := [], map[];
    var n := 0;
    while n < |modules|
      invariant 0 <= n <= |modules|
      invariant order == Dedup(Prefixes(modules[..n]))
      invariant forall p :: p in table <==> p in order
      invariant forall p :: TableSize(table, p) == PrefixTotal(modules[..n], sizes, p)
    {
      var m := modules[n];
      var order', table' := AddSize(order, table, PrefixOf(m.path), SizeOf(m, sizes));
      assert modules[..n + 1] == modules[..n] + [m];
      OrderStep(modules[..n], m, order, order');
      TableStep(modules[..n], m, sizes, table, table');
      order, table := order', table';
      n := n + 1;
    }
    assert modules[..|modules|] == modules;
  }

  // ---------------------------------------------------------------------------
  // Ranking and candidates
  // ---------------------------------------------------------------------------

  /** Descending size order; a stable sort keeps equal sizes in key order. */
  function BySize(table: map<string, nat>): (le: (string, string) -> bool)
  {
    (a: string, b: string) => TableSize(table, a) >= TableSize(table, b)
  }

  lemma BySizePreorder(table: map<string, nat>)
    ensures TotalPreorder(BySize(table))
  {
  }

  /** The number of prefixes the report lists. */
  const TopCount: nat := 25

  /** The 25 heaviest prefixes, heaviest first; prefixes of equal size keep their order. */
  function TopPrefixes(order: seq<string>, table: map<string, nat>): (top: seq<string>)
    ensures |top| <= TopCount
  {
    BySizePreorder(table);
    var ranked := Sort(order, BySize(table));
    ranked[..if |ranked| < TopCount then |ranked| else TopCount]
  }

  /**
   * The listed prefixes come from `order`, heaviest first, and no prefix
   * left out of the list is heavier than one in it; with 25 prefixes or
   * fewer, all of them are listed. Of two prefixes of equal size, one
   * listed and one left out, the listed one comes first in `order`.
   */
  lemma TopPrefixesSpec(order: seq<string>, table: map<string, nat>)
    ensures var top := TopPrefixes(order, table);
      && multiset(top) <= multiset(order)
      && (forall i, j :: 0 <= i < j < |top| ==> TableSize(table, top[i]) >= TableSize(table, top[j]))
      && (forall p, q :: p in order && p !in top && q in top ==> TableSize(table, q) >= TableSize(table, p))
      && (|order| <= TopCount ==> multiset(top) == multiset(order))
      && (forall p, q :: p in top && q in order && q !in top && TableSize(table, p) == TableSize(table, q) ==>
            p in order && FirstIndex(order, p) < FirstIndex(order, q))
  {
    TopPrefixesContents(order, table);
    TopPrefixesRanked(order, table);
    TopPrefixesCut(order, table);
    TopPrefixesStable(order, table);
  }

  /** The listed prefixes are heaviest first. */
  lemma TopPrefixesRanked(order: seq<string>, table: map<string, nat>)
    ensures var top := TopPrefixes(order, table);
      forall i, j :: 0 <= i < j < |top| ==> TableSize(table, top[i]) >= TableSize(table, top[j])
  {
    BySizePreorder(table);
    var ranked := Sort(order, BySize(table));
    var k := if |ranked| < TopCount then |ranked| else TopCount;
    assert TopPrefixes(order, table) == ranked[..k];
    SortedTake(ranked, k, BySize(table));
  }

  /** No prefix left out of the list is heavier than one in it. */
  lemma TopPrefixesCut(order: seq<string>, table: map<string, nat>)
    ensures var top := TopPrefixes(order, table);
      forall p, q :: p in order && p !in top && q in top ==> TableSize(table, q) >= TableSize(table, p)
  {
    BySizePreorder(table);
    var ranked := Sort(order, BySize(table));
    var k := if |ranked| < TopCount then |ranked| else TopCount;
    assert TopPrefixes(order, table) == ranked[..k];
    SortedTake(ranked, k, BySize(table));
    forall p, q | p in order && p !in ranked[..k] && q in ranked[..k] ensures TableSize(table, q) >= TableSize(table, p) {
      assert p in multiset(order);
      assert BySize(table)(q, p);
    }
  }

  /** The listed prefixes come from `order`; with 25 prefixes or fewer, all of them are listed. */
  lemma TopPrefixesContents(order: seq<string>, table: map<string, nat>)
    ensures var top := TopPrefixes(order, table);
      && multiset(top) <= multiset(order)
      && (|order| <= TopCount ==> multiset(top) == multiset(order))
  {
    BySizePreorder(table);
    var ranked := Sort(order, BySize(table));
    var k := if |ranked| < TopCount then |ranked| else TopCount;
    assert TopPrefixes(order, table) == ranked[..k];
    assert ranked == ranked[..k] + ranked[k..];
    assert multiset(ranked) == multiset(ranked[..k]) + multiset(ranked[k..]);
    if |order| <= TopCount {
      assert ranked[..k] == ranked;
    }
  }

  /** Of two prefixes of equal size, one listed and one left out, the listed one comes first in `order`. */
  lemma TopPrefixesStable(order: seq<string>, table: map<string, nat>)
    ensures var top := TopPrefixes(order, table);
      forall p, q :: p in top && q in order && q !in top && TableSize(table, p) == TableSize(table, q) ==>
        p in order && FirstIndex(order, p) < FirstIndex(order, q)
  {
    BySizePreorder(table);
    var ranked := Sort(order, BySize(table));
    var k := if |ranked| < TopCount then |ranked| else TopCount;
    assert TopPrefixes(order, table) == ranked[..k];
    forall p, q | p in ranked[..k] && q in order && q !in ranked[..k] && TableSize(table, p) == TableSize(table, q)
      ensures p in order && FirstIndex(order, p) < FirstIndex(order, q)
    {
      SortedTakeStable(order, k, BySize(table), p, q);
    }
  }

  /** The prefix starts with (or is) one of the VCS-priority patterns. */
  predicate IsVcsPriority(prefix: string, patterns: seq<string>) {
    exists i :: 0 <= i < |patterns| && (StartsWith(prefix, patterns[i]) || prefix == patterns[i])
  }

  /** The listed prefixes to keep on git, in rank order. */
  function GitCandidates(top: seq<string>, patterns: seq<string>): (r: seq<string>)
  {
    if |top| == 0 then []
    else
      var init := GitCandidates(top[..|top| - 1], patterns);
      if IsVcsPriority(top[|top| - 1], patterns) then init + [top[|top| - 1]] else init
  }

  /** The listed prefixes over the threshold that are not kept on git, in rank order. */
  function GomodCandidates(top: seq<string>, table: map<string, nat>, patterns: seq<string>, threshold: int): (r: seq<string>)
  {
    if |top| == 0 then []
    else
      var p := top[|top| - 1];
      var init := GomodCandidates(top[..|top| - 1], table, patterns, threshold);
      if !IsVcsPriority(p, patterns) && TableSize(table, p) > threshold then init + [p] else init
  }

  /**
   * A listed prefix is a git candidate exactly when it matches a priority
   * pattern, and a gomod candidate exactly when it does not and is over the
   * threshold; so no prefix is both.
   */
  lemma {:induction false} CandidatesSpec(top: seq<string>, table: map<string, nat>, patterns: seq<string>, threshold: int)
    ensures forall p :: p in GitCandidates(top, patterns) <==> p in top && IsVcsPriority(p, patterns)
    ensures forall p :: p in GomodCandidates(top, table, patterns, threshold) <==>
      p in top && !IsVcsPriority(p, patterns) && TableSize(table, p) > threshold
  {
    if |top| > 0 {
      var init := top[..|top| - 1];
      CandidatesSpec(init, table, patterns, threshold);
      assert top == init + [top[|top| - 1]];
    }
  }

  /** The candidate loop over the listed prefixes. */
  method SplitCandidates(top: seq<string>, table: map<string, nat>, patterns: seq<string>, threshold: int)
    returns (gitCandidates: seq<string>, gomodCandidates: seq<string>)
    ensures gitCandidates == GitCandidates(top, patterns)
    ensures gomodCandidates == GomodCandidates(top, table, patterns, threshold)
  {
    gitCandidates, gomodCandidates := [], [];
    var n := 0;
    while n < |top|
      invariant 0 <= n <= |top|
      invariant gitCandidates == GitCandidates(top[..n], patterns)
      invariant gomodCandidates == GomodCandidates(top[..n], table, patterns, threshold)
    {
      assert top[..n + 1][..n] == top[..n];
      var prefix := top[n];
      if IsVcsPriority(prefix, patterns) {
        gitCandidates := gitCandidates + [prefix];
      } else if TableSize(table, prefix) > threshold {
        gomodCandidates := gomodCandidates + [prefix];
      }
      n := n + 1;
    }
    assert top[..|top|] == top;
  }

  /** What the report recommends. */
  datatype Recommendation = Recommendation(
    order: seq<string>,
    table: map<string, nat>,
    top: seq<string>,
    gitCandidates: seq<string>,
    gomodCandidates: seq<string>,
    suggestedGit: string)

  /**
   * `recommend_conversion` without its printing: the prefix table, the
   * listed prefixes, the candidates, and the `--git` value it suggests,
   * which falls back to the configured default prefixes when no prefix
   * matched a priority pattern.
   */
  method RecommendConversion(modules: seq<Module>, sizes: map<string, nat>, patterns: seq<string>, threshold: int, defaultGit: seq<string>)
    returns (rec: Recommendation)
    ensures rec.order == Dedup(Prefixes(modules))
    ensures forall p :: p in rec.table <==> p in Prefixes(modules)
    ensures forall p :: TableSize(rec.table, p) == PrefixTotal(modules, sizes, p)
    ensures rec.top == TopPrefixes(rec.order, rec.table)
    ensures rec.gitCandidates == GitCandidates(rec.top, patterns)
    ensures rec.gomodCandidates == GomodCandidates(rec.top, rec.table, patterns, threshold)
    ensures rec.suggestedGit == Join(if rec.gitCandidates != [] then rec.gitCandidates else defaultGit, ",")
  {
    var order, table := PrefixSizes(modules, sizes);
    DedupSpec(Prefixes(modules));
    var top := TopPrefixes(order, table);
    var git, gomod := SplitCandidates(top, table, patterns, threshold);
    var suggested := if git != [] then Join(git, ",") else Join(defaultGit, ",");
    rec := Recommendation(order, table, top, git, gomod, suggested);
  }
}
