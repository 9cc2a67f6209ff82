# Go module fetching for OpenEmbedded recipes: a Dafny model

The meta-virtualization layer builds Go projects such as k3s and containerd without going to the network during the build. It does this by turning a project's Go module dependencies into BitBake `SRC_URI` entries. Three scripts do the preparation:

- `oe-go-mod-fetcher.py` reads `go.sum` and `go.mod`, resolves every module to a repository and a commit, and writes `go-mod-git.inc` and `go-mod-cache.inc`.
- `oe-go-mod-fetcher-hybrid.py` splits the modules between `git://` fetches, which keep commit-level provenance, and `gomod://` fetches from the module proxy, which are faster. It also recommends which module prefixes to move.
- `extract-discovered-modules.py` walks a Go module cache filled by a discovery build and turns its `.info` files into module records.

This project models the deterministic string and table logic of these scripts, one Dafny module per concern:

| Dafny module | what it models |
|---|---|
| `PathCodec` | the `!`-escaping of upper-case letters in module paths (the case encoding of the Go module proxy protocol) |
| `GoSum` | `parse_go_sum`: the split of `(module, version)` keys into "has a source checksum" and "only a `/go.mod` checksum" |
| `GoMod` | `parse_go_mod_requires` (single-line and block `require` forms) and `parse_go_mod_replaces` |
| `PseudoVersion` | `parse_pseudo_version_tag` and `derive_timestamp_from_version`, including the calendar validity check |
| `Overrides` | the repository-override policy and the module metadata cache; the script's module-level tables are the fields of the class `FetcherState`, which its methods update in place |
| `RepoHeuristics` | `_candidate_gopkg_repos`, `_recalculate_subdir_from_vanity` and the default `domain/org/repo` layout with the major-version element stripped |
| `SrcUri` | the `git://` `SRC_URI` entries `generate_recipe` writes: the scheme rewrite, the branch and shallow parameters, and the fetch name |
| `GitInc` | `parse_go_mod_git_inc`, including a positional model of its regular expression; the round trip from a written line back to the parsed entry |
| `Hybrid` | `generate_hybrid_files`: classification by prefix, the gomod, git and cache include files |
| `Recommend` | `recommend_conversion` without its printing, and `load_hybrid_config` |
| `ExtractModules` | `git_ls_remote`, the guard of `resolve_short_hash`, `derive_vcs_info` and `extract_modules` |
| `Strings`, `Collections`, `Wrappers` | the Python string operations, the stable `sorted`, the "append if not present" de-duplication and the "later entry overwrites" dictionary filling the scripts share, and `Option`/`Result` |

Loops in the scripts are methods with loop invariants, each proved against a specification function. The properties of those functions are proved as lemmas. Exceptions become `Result.Err`, `None` results become `Option.None`, and the one network lookup, `git ls-remote`, is a function parameter. The archive building and directory hashing that `go-mod-vcs.bbclass` and `dirhash-helper.go` perform are not in these scripts.

## Model

| member | source | states |
|---|---|---|
| PathCodec.Escape | scripts/oe-go-mod-fetcher.py:3341-3347 | the encoding is never shorter than the path and holds no upper-case letter |
| PathCodec.UnescapeEscape | scripts/oe-go-mod-fetcher.py:3333-3347 | decoding the encoding of any path without `!` gives the path back |
| PathCodec.UnescapeWithoutMarker | scripts/oe-go-mod-fetcher.py:3333-3339 | a path without `!` decodes to itself |
| PathCodec.EscapeWithoutUpper | scripts/oe-go-mod-fetcher.py:3341-3347 | a path without upper-case letters encodes to itself |
| PathCodec.NoCaseInsensitiveCollision | scripts/oe-go-mod-fetcher.py:3341-3347 | two different `!`-free paths (for example two that differ only in case) encode to names that still differ after case folding |
| GoSum.SanitizeModuleName | scripts/oe-go-mod-fetcher.py:105-112 | the result is never longer than the name; when the stripped name is wrapped in double quotes, the result is exactly what lies between them |
| GoSum.TrimGoMod | scripts/oe-go-mod-fetcher.py:135-138 | a version ending in `/go.mod` is the result followed by `/go.mod`; any other version comes back unchanged |
| GoSum.ParseSumLineFields | scripts/oe-go-mod-fetcher.py:124-139 | a line yields a key iff, once stripped, it is not blank, not a `//` comment and has exactly three fields; the key is the first field (with or without surrounding quotes) and the second field without `/go.mod`, and the entry is a go.mod checksum iff the second field ends in `/go.mod` |
| GoSum.EntriesMeaning | scripts/oe-go-mod-fetcher.py:121-147 | the first-pass table holds exactly the keys of the parsed lines; `has_source` is set iff some line carries a source checksum for the key, `has_gomod` iff some line carries a go.mod checksum |
| GoSum.ParseGoSum | scripts/oe-go-mod-fetcher.py:96-161 | a key is in the source set iff some line carries a source checksum for it, in the go.mod-only set iff it has go.mod checksums and no source checksum; the two sets are disjoint |
| GoMod.Classify | scripts/oe-go-mod-fetcher.py:3373-3405 | a directive or block-entry line carries the whitespace fields of the stripped line |
| GoMod.ParseGoModRequires | scripts/oe-go-mod-fetcher.py:3353-3410 | the loop returns exactly what the line scanner yields over the file, in file order |
| GoMod.RunAppend | scripts/oe-go-mod-fetcher.py:3368-3405 | scanning two pieces of a file is scanning the first and then the second from the block state the first left |
| GoMod.RequiresFromFields | scripts/oe-go-mod-fetcher.py:3386-3405 | every returned pair is two consecutive whitespace fields of one line of the file |
| GoMod.RequiresSnoc | scripts/oe-go-mod-fetcher.py:3372-3405 | one more line adds to what the lines before it yield exactly the pair, if any, that one scanner step yields on that line |
| GoMod.RequireLineWords | scripts/oe-go-mod-fetcher.py:3386-3387 | the whitespace fields of `require <m> <v>` are the keyword, `m` and `v` |
| GoMod.RequireLineKind | scripts/oe-go-mod-fetcher.py:3373-3386 | a stripped `require <m> <v>` line is a single-line directive with those three fields |
| GoMod.SingleRequire | scripts/oe-go-mod-fetcher.py:3385-3391 | a single-line `require <m> <v>` directive yields `(m, v)`, after the pairs of the lines before it |
| GoMod.OutsideBlock | scripts/oe-go-mod-fetcher.py:3395-3405 | outside a require block, a line that is neither a directive nor a delimiter yields nothing |
| GoMod.BlockEntries | scripts/oe-go-mod-fetcher.py:3395-3405 | inside a block, ordinary entries yield their first two fields, in order, and the scanner stays inside the block |
| GoMod.BlockDelimiters | scripts/oe-go-mod-fetcher.py:3376-3383 | `require (` opens a block and `)` closes it |
| GoMod.RequireBlock | scripts/oe-go-mod-fetcher.py:3376-3405 | a whole `require ( ... )` block yields exactly the pairs of its entries, and the scanner is outside a block after its `)` |
| GoMod.ReplaceNeedsArrow | scripts/oe-go-mod-fetcher.py:2129-2139 | a line without `=>` contributes no replacement, even one starting with `replace ` |
| GoMod.ParseGoModReplaces | scripts/oe-go-mod-fetcher.py:2112-2155 | every old path some line replaces maps to the target of the last line replacing it, and no other path is in the table |
| PseudoVersion.ParsePseudoVersionTag | scripts/oe-go-mod-fetcher.py:2158-2175 | a parsed tag always gives a fourteen-digit timestamp and a commit of six to forty hex digits |
| PseudoVersion.SeparatorFree | scripts/oe-go-mod-fetcher.py:2160-2172 | accepted timestamps and commits hold none of the separators (`+`, `-`, `.`) the parser splits at |
| PseudoVersion.DropBuild | scripts/oe-go-mod-fetcher.py:2160 | a `+build` suffix does not change what a tag parses to |
| PseudoVersion.BuiltFields | scripts/oe-go-mod-fetcher.py:2161-2166 | the `-` fields of a built pseudo-version are at least three and end in the stamped field and the commit |
| PseudoVersion.StampAfterDot | scripts/oe-go-mod-fetcher.py:2167 | the part after the last `.` of a `pre.0.`-style middle followed by the stamp is the stamp |
| PseudoVersion.ParseBuiltPseudoVersion | scripts/oe-go-mod-fetcher.py:2158-2175 | every pseudo-version built from a base, an optional `pre.0.`-style middle, a valid timestamp and commit, and an optional `+build` suffix parses back to that timestamp and commit |
| PseudoVersion.ParseLayout | scripts/oe-go-mod-fetcher.py:2158-2175 | a tag laid out as base, `-`, an optional dotted middle, a stamp field, `-`, a commit field and an optional `+build` suffix parses to exactly that stamp and commit when the stamp is fourteen digits and the commit six to forty hex digits, and to nothing otherwise |
| PseudoVersion.TooFewFields | scripts/oe-go-mod-fetcher.py:2160-2163 | a tag with fewer than three `-`-separated fields before any `+` suffix does not parse |
| PseudoVersion.ParsePseudoVersionTagSpec | scripts/oe-go-mod-fetcher.py:2158-2175 | a tag parses to a given stamp and commit exactly when the stamp is fourteen digits, the commit six to forty hex digits, and the tag is laid out as base, `-`, optional dotted middle, stamp, `-`, commit and optional `+build` suffix |
| PseudoVersion.DaysInMonth | scripts/oe-go-mod-fetcher.py:2719 | months have 28 to 31 days, and February has 29 exactly in Gregorian leap years |
| PseudoVersion.DeriveTimestampFromVersion | scripts/oe-go-mod-fetcher.py:2714-2722 | the result always has the `YYYY-MM-DDTHH:MM:SSZ` shape |
| PseudoVersion.StampOfFormat | scripts/oe-go-mod-fetcher.py:2719 | formatting a stamp only inserts separators: its fields read back as the stamp |
| PseudoVersion.EpochStamp | scripts/oe-go-mod-fetcher.py:2721-2722 | the epoch fallback reads back as the stamp `19700101000000` |
| PseudoVersion.DerivedTimestampStamp | scripts/oe-go-mod-fetcher.py:2714-2722 | read back field by field, the derived timestamp is the pseudo-version's stamp exactly when it parses and is a real date-time, and the epoch otherwise |
| Overrides.NormaliseStable | scripts/oe-go-mod-fetcher.py:328-333 | normalising an already normalised key with a non-empty version gives it back |
| Overrides.ParseOverrideSpecAt | scripts/oe-go-mod-fetcher.py:336-342 | a `module@version` argument splits at its first `@` into the stripped path and the stripped version, an empty version meaning none |
| Overrides.ParseOverrideSpecPlain | scripts/oe-go-mod-fetcher.py:336-342 | an argument without `@` is the stripped path with no version |
| Overrides.OverrideFileKey | scripts/oe-go-mod-fetcher.py:2471-2473 | a wildcard override is saved under the module path alone, any other under `module|||version` |
| Overrides.ParseFileKeyPipes | scripts/oe-go-mod-fetcher.py:2432-2435 | a `module|||version` key splits at the separator, and the version `*` means the wildcard |
| Overrides.ParseFileKeyAt | scripts/oe-go-mod-fetcher.py:2436-2440 | a `module@version` key not starting with `@` splits at its `@` |
| Overrides.OverrideFileKeyRoundTrip | scripts/oe-go-mod-fetcher.py:2425-2446 | every normalised key without `|` or `@` in its path and with a version other than `*` is read back from the saved file as itself |
| Overrides.OverrideEntry | scripts/oe-go-mod-fetcher.py:2425-2446 | an entry assigns something only when its value is a string and its key parses; it then assigns that value to the parsed key |
| Overrides.LoadOverridesFromFile | scripts/oe-go-mod-fetcher.py:2404-2446 | the target keeps its other keys and each key read maps to the URL of its last entry in the file |
| Overrides.Lookup | scripts/oe-go-mod-fetcher.py:361-376 | a table lookup contributes nothing exactly when the key is absent or maps to an empty URL, and the URL otherwise |
| Overrides.CandidatesSpec | scripts/oe-go-mod-fetcher.py:345-383 | the candidates fail exactly for a blank module path; otherwise they hold every applicable override once, ordered by the highest-priority source it comes from (dynamic exact, dynamic wildcard, manual exact, manual wildcard, legacy) |
| Overrides.DynamicOverrideFirst | scripts/oe-go-mod-fetcher.py:361-363 | a dynamic override for the exact version is always the first candidate |
| Overrides.NoOverridesNoCandidates | scripts/oe-go-mod-fetcher.py:345-383 | with every table empty, a non-blank module has no candidates |
| Overrides.NormalizeUrl | scripts/oe-go-mod-fetcher.py:455-461 | a normalised URL never starts with `git://` |
| Overrides.NormalizeGitScheme | scripts/oe-go-mod-fetcher.py:455-458 | a `git://` URL normalises like its `https://` spelling |
| Overrides.NormalizeGitSuffix | scripts/oe-go-mod-fetcher.py:459-460 | a trailing `.git` does not change the normalised URL |
| Overrides.UrlAllowedSpec | scripts/oe-go-mod-fetcher.py:464-470 | the check fails exactly for a blank module path and rejects a URL exactly when there are candidates and none of them normalises to the same URL |
| Overrides.UrlAllowedWithoutOverrides | scripts/oe-go-mod-fetcher.py:466-468 | without overrides every URL is allowed for a non-blank module |
| Overrides.UrlAllowedEitherScheme | scripts/oe-go-mod-fetcher.py:455-470 | the `git://` and `https://` spellings of a URL are allowed alike |
| Overrides.KeepEntrySpec | scripts/oe-go-mod-fetcher.py:482-501 | an entry is kept exactly when it has a URL, a forty-hex-digit commit and a URL the overrides allow; the check raises exactly when an entry passes the first two tests and its module path is blank |
| Overrides.KeepWithoutOverrides | scripts/oe-go-mod-fetcher.py:482-501 | without overrides, pruning keeps exactly the complete entries of non-blank modules |
| Overrides.PruneBy | scripts/oe-go-mod-fetcher.py:481-504 | for any per-entry verdict, the loop raises exactly when some verdict raises; it only removes entries, each one a verdict drops, never those to keep, and without a raise it keeps exactly those to keep; `removed` says whether any key went |
| Overrides.AppendLookup | scripts/oe-go-mod-fetcher.py:361-376 | appending a table's URL unless already listed keeps the list equal to the first-occurrence de-duplication of all URLs seen |
| Overrides.FetcherState.constructor | scripts/oe-go-mod-fetcher.py:282-325 | every table starts empty and nothing is marked for writing back |
| Overrides.FetcherState.LoadManualOverrides | scripts/oe-go-mod-fetcher.py:2449-2455 | the manual table becomes exactly what the file assigns; nothing else changes |
| Overrides.FetcherState.LoadRepoOverrides | scripts/oe-go-mod-fetcher.py:2458-2463 | the dynamic table becomes exactly what the file assigns and is marked clean; nothing else changes |
| Overrides.FetcherState.RepoOverrideCandidates | scripts/oe-go-mod-fetcher.py:345-383 | the loop over the tables returns the candidate list that `CandidatesSpec` characterises |
| Overrides.FetcherState.PruneMetadataCache | scripts/oe-go-mod-fetcher.py:473-504 | it raises exactly when some entry's check raises; entries are only removed, never changed, and only those the policy drops; without a raise exactly the entries to keep remain and the dirty flag is set iff anything was removed (or it was already set); the override tables are untouched |
| Overrides.FetcherState.UpdateMetadataCache | scripts/oe-go-mod-fetcher.py:2765-2780 | the key maps to the new entry and no other key changes; the dirty flag is raised only when `dirty` is set and the stored entry actually changed; the entry then reads back through `GetCachedMetadata` |
| Overrides.FetcherState.GetCachedMetadata | scripts/oe-go-mod-fetcher.py:2783-2796 | there is a result exactly when the pair is cached; it carries the cached URL, commit, ref and subdirectory, and the cached timestamp, or when none was cached the one derived from the version, which is non-empty and ISO-shaped |
| RepoHeuristics.GopkgName | scripts/oe-go-mod-fetcher.py:3026-3030 | a name found is a non-empty, newline-free proper prefix of the last element, and the version tail of the pattern matches right after it |
| RepoHeuristics.GopkgNameOf | scripts/oe-go-mod-fetcher.py:3026-3030 | a dot-free name followed by a major-version tail such as `.v2` or `.v3-unstable` is found as exactly that name |
| RepoHeuristics.ReplaceChar | scripts/oe-go-mod-fetcher.py:3039 | replacing a character keeps the length and changes exactly the positions holding it |
| RepoHeuristics.RemoveChar | scripts/oe-go-mod-fetcher.py:3040 | removing a character leaves none of it and changes nothing when it is absent |
| RepoHeuristics.MapDotFree | scripts/oe-go-mod-fetcher.py:3038-3043 | owner segments without dots are left alone by both dotted fallbacks |
| RepoHeuristics.OwnerVariants | scripts/oe-go-mod-fetcher.py:3033-3050 | one to three owners are tried; which ones is stated by `RepoHeuristics.ConventionalOwnerUrls`, `RepoHeuristics.GopkgReposOfName` and `RepoHeuristics.GopkgReposOfOwner` |
| RepoHeuristics.GithubUrls | scripts/oe-go-mod-fetcher.py:3054-3058 | at most one GitHub URL per owner, each starting with `https://github.com/` |
| RepoHeuristics.CandidateGopkgReposSpec | scripts/oe-go-mod-fetcher.py:3012-3062 | the candidates are distinct GitHub URLs, at most three, and there are none for a path outside `gopkg.in/` |
| RepoHeuristics.GithubUrlsOfPlainOwners | scripts/oe-go-mod-fetcher.py:3054-3058 | owners without slashes give one URL each, in order |
| RepoHeuristics.GopkgPath | scripts/oe-go-mod-fetcher.py:3016-3062 | a `gopkg.in/` path of dot-free owners and name splits into those owners and name, and its candidates are the de-duplicated URLs of the owner variants |
| RepoHeuristics.DedupThree | scripts/oe-go-mod-fetcher.py:3052-3061 | de-duplicating three URLs whose neighbours differ drops only a repeat of the first |
| RepoHeuristics.ConventionalOwnerUrls | scripts/oe-go-mod-fetcher.py:3044-3050 | a bare name is tried under `go-<name>`, `<name>` and `<name>-go`, in that order |
| RepoHeuristics.GopkgReposOfName | scripts/oe-go-mod-fetcher.py:3012-3062 | a bare `gopkg.in/<name>.vN` path gives the URLs under `go-<name>`, `<name>` and `<name>-go`, the last dropped only when it repeats the first |
| RepoHeuristics.GopkgReposOfOwner | scripts/oe-go-mod-fetcher.py:3012-3062 | a `gopkg.in/<owner>/<name>.vN` path with a dot-free owner has exactly the one candidate `https://github.com/<owner>/<name>` |
| RepoHeuristics.DropMajorSuffix | scripts/oe-go-mod-fetcher.py:3245-3246 | the elements come back unchanged, or without their last element exactly when it is a `vN` major version |
| RepoHeuristics.LayoutOfParts | scripts/oe-go-mod-fetcher.py:3238-3249 | up to three elements form the repository with no subdirectory; with more and no major version last, repository, `/` and subdirectory rejoin the elements |
| RepoHeuristics.LayoutOfVersionedParts | scripts/oe-go-mod-fetcher.py:3238-3249 | with a major version last, repository, subdirectory and that version rejoin the elements; with exactly four there is no subdirectory |
| RepoHeuristics.DefaultLayout | scripts/oe-go-mod-fetcher.py:3238-3249 | for every module path, the default repository, subdirectory and any dropped major version put back together with `/` give the path |
| RepoHeuristics.RepoNameOfUrl | scripts/oe-go-mod-fetcher.py:3072-3074 | the repository name of a URL is its last element, whether the URL ends in it, in it plus `.git`, or in it plus `/` |
| RepoHeuristics.RepoBoundary | scripts/oe-go-mod-fetcher.py:3076-3080 | the boundary is one past the first element that matches the repository name, and there is none exactly when no element matches |
| RepoHeuristics.VanitySubdirAfterRepo | scripts/oe-go-mod-fetcher.py:3065-3086 | when the module path passes through the repository's name, the subdirectory is exactly what follows (less a major version), whatever the caller had |
| RepoHeuristics.VanitySubdirNoBoundary | scripts/oe-go-mod-fetcher.py:3065-3091 | without a boundary, a path of three elements or fewer has no subdirectory and a longer one keeps the current one |
| SrcUri.FetchSchemeRoundTrip | scripts/oe-go-mod-fetcher.py:4056-4061 | a web URL is fetched over `git://`, and its protocol, `://` and the rest of the `git://` URL give back the original URL |
| SrcUri.RefParamsSpec | scripts/oe-go-mod-fetcher.py:4072-4098 | a commit with a ref is fetched shallow and one without is not; a branch ref names its branch, any other ref gives `nobranch=1`; without a ref, the detected branch is named when there is one and `nobranch=1` otherwise |
| SrcUri.DecimalString | scripts/oe-go-mod-fetcher.py:4067 | the decimal form of an index is non-empty, all digits, and reads back as the index |
| SrcUri.FetchName | scripts/oe-go-mod-fetcher.py:4067 | every fetch name starts with `git_`, and has no `"` when the repository key has none |
| SrcUri.FetchNameInjective | scripts/oe-go-mod-fetcher.py:4065-4067 | the commits of one repository, numbered by `enumerate`, get pairwise distinct fetch names |
| SrcUri.IncLine | scripts/oe-go-mod-fetcher.py:4156-4157 | every written line starts with `SRC_URI +=`, so the hybrid reader considers it |
| GitInc.FindFrom | scripts/oe-go-mod-fetcher-hybrid.py:193 | the `;` that ends the host-and-path group is the first one after `git://`, and there is none when the search fails |
| GitInc.LastDestAt | scripts/oe-go-mod-fetcher-hybrid.py:193 | the greedy parameters group stops at the last cache marker in range, and there is none when the search fails |
| GitInc.HexRun | scripts/oe-go-mod-fetcher-hybrid.py:193-200 | the hash group is the longest lower-case hex prefix |
| GitInc.MatchAt | scripts/oe-go-mod-fetcher-hybrid.py:193 | a match gives a non-empty host path without `;`, parameters without `"` and a non-empty lower-case hex hash |
| GitInc.MatchFrom | scripts/oe-go-mod-fetcher-hybrid.py:193 | the leftmost match, when there is one, has the same three properties |
| GitInc.MatchFromSkip | scripts/oe-go-mod-fetcher-hybrid.py:193 | the search passes over positions that cannot start `git://` |
| GitInc.RevFrom | scripts/oe-go-mod-fetcher-hybrid.py:200-201 | the commit read from `rev=` is lower-case hex (empty when there is no `rev=`) |
| GitInc.GitIncEntries | scripts/oe-go-mod-fetcher-hybrid.py:188-207 | one reading per line of the file |
| GitInc.ParseGoModGitInc | scripts/oe-go-mod-fetcher-hybrid.py:180-209 | the table holds, for every cache hash, the entry of the last matching `SRC_URI +=` line carrying it, and nothing else |
| GitInc.MatchAtParts | scripts/oe-go-mod-fetcher-hybrid.py:193 | the pattern matches at `git://` when a host path without `;`, parameters without `"`, the cache marker, the hash and the closing quote follow, and yields exactly those groups |
| GitInc.RevAfterKeyFree | scripts/oe-go-mod-fetcher-hybrid.py:200-201 | after text holding no `rev=` key, `;rev=<hash>` gives exactly the hash |
| GitInc.RefParamsWellFormed | scripts/oe-go-mod-fetcher.py:4072-4098 | the branch and shallow parameters the fetcher chooses are well formed when branch names have no `=` or `"` |
| GitInc.RevOfEntryParams | scripts/oe-go-mod-fetcher-hybrid.py:200-201 | the `rev=` search over the parameters the fetcher writes finds the commit hash |
| GitInc.EntryParamsQuoteFree | scripts/oe-go-mod-fetcher.py:4100-4105 | the parameters the fetcher writes hold no `"`, so the greedy group cannot run past them |
| GitInc.MatchOfWrittenLine | scripts/oe-go-mod-fetcher-hybrid.py:189-197 | on a written line the pattern finds exactly the host, the parameters and the hash that were written |
| GitInc.IncLineStripped | scripts/oe-go-mod-fetcher-hybrid.py:206 | stripping a written line leaves it as it is |
| GitInc.GitIncRoundTrip | scripts/oe-go-mod-fetcher-hybrid.py:180-209 | a line the fetcher writes for the `idx`-th commit of a web repository reads back as its cache hash, the repository over `https://` (also for an `http://` URL), the commit from `rev=` and the whole line |
| Hybrid.ClassifyModule | scripts/oe-go-mod-fetcher-hybrid.py:468-494 | a module goes to git exactly when a `--git` prefix matches it, or when only `--gomod` prefixes were given and none matches; a module matching both goes to git; with no prefixes everything goes to gomod |
| Hybrid.GitSide | scripts/oe-go-mod-fetcher-hybrid.py:491-494 | the git side is no longer than the input; which modules it holds, and in what order, is stated by `Hybrid.SidesPartition` |
| Hybrid.GomodSide | scripts/oe-go-mod-fetcher-hybrid.py:491-494 | the gomod side is no longer than the input; which modules it holds, and in what order, is stated by `Hybrid.SidesPartition` |
| Hybrid.SidesPartition | scripts/oe-go-mod-fetcher-hybrid.py:466-494 | the two sides together are a permutation of the input, every git-side module is one the rule sends to git and every gomod-side module one it does not |
| Hybrid.Classify | scripts/oe-go-mod-fetcher-hybrid.py:466-494 | the loop builds exactly the two sides, each in input order |
| Hybrid.PathLeTotalPreorder | scripts/oe-go-mod-fetcher-hybrid.py:520 | ordering modules by their path is a total preorder |
| Hybrid.SortByPath | scripts/oe-go-mod-fetcher-hybrid.py:520 | the sorted modules are a permutation of the input in non-decreasing path order |
| Hybrid.SortByPathStable | scripts/oe-go-mod-fetcher-hybrid.py:520 | modules with the same path keep their input order, as Python's stable `sorted` keeps them |
| Hybrid.GomodLineChecksum | scripts/oe-go-mod-fetcher-hybrid.py:520-527 | a gomod entry carries `;sha256sum=` exactly when the checksum table has the module's `module@version`, and then ends with that checksum |
| Hybrid.GomodLines | scripts/oe-go-mod-fetcher-hybrid.py:520-527 | one entry per module |
| Hybrid.EmitGomodModule | scripts/oe-go-mod-fetcher-hybrid.py:521-527 | one iteration appends the module's entry to the lines so far |
| Hybrid.GomodInclude | scripts/oe-go-mod-fetcher-hybrid.py:509-527 | the gomod include file is the header followed by one entry per gomod module in path order |
| Hybrid.FullLines | scripts/oe-go-mod-fetcher-hybrid.py:553 | one recorded line per hash |
| Hybrid.EmittedHashes | scripts/oe-go-mod-fetcher-hybrid.py:549-554 | every emitted hash is known to `go-mod-git.inc` |
| Hybrid.EmittedHashesSpec | scripts/oe-go-mod-fetcher-hybrid.py:547-554 | the emitted hashes hold no repeats and are exactly the known hashes of the modules |
| Hybrid.KnownHashesSpec | scripts/oe-go-mod-fetcher-hybrid.py:551-552 | the known hashes are exactly the hashes of the modules that `go-mod-git.inc` records |
| Hybrid.EmittedSnoc | scripts/oe-go-mod-fetcher-hybrid.py:552-554 | one more module adds its hash exactly when it is known and not yet emitted |
| Hybrid.GitStep | scripts/oe-go-mod-fetcher-hybrid.py:550-554 | the set of added hashes tracks the emitted hashes across one iteration, and the emitted lines grow by the module's recorded line exactly when its hash is known and new |
| Hybrid.EmitModule | scripts/oe-go-mod-fetcher-hybrid.py:551-554 | one iteration keeps the added set equal to the emitted hashes and the lines equal to their recorded lines |
| Hybrid.GitInclude | scripts/oe-go-mod-fetcher-hybrid.py:538-554 | the git include file is the header followed by the recorded line of each known hash, once, at its first module in path order |
| Hybrid.CacheInclude | scripts/oe-go-mod-fetcher-hybrid.py:561-584 | without git modules the data is `'[]'`; otherwise one compact JSON line per git module in path order, all but the last ending in `,\` and the last in `]'` |
| Recommend.LoadHybridConfig | scripts/oe-go-mod-fetcher-hybrid.py:66-105 | without a readable config object the defaults are used; otherwise the file's keys keep their values and every missing default key is added with its default |
| Recommend.SettingsPresent | scripts/oe-go-mod-fetcher-hybrid.py:327-329 | after loading, all three settings are present, so the fallbacks of `config.get` are never taken |
| Recommend.PrefixOfSpec | scripts/oe-go-mod-fetcher-hybrid.py:335-339 | the prefix starts the path; it is the whole path when the path has no `/`, and otherwise its first two components, ending at the path's end or just before a `/` |
| Recommend.Prefixes | scripts/oe-go-mod-fetcher-hybrid.py:334-339 | one prefix per module |
| Recommend.PrefixTotalOutside | scripts/oe-go-mod-fetcher-hybrid.py:334-345 | only prefixes of some module have a non-zero total |
| Recommend.AddSize | scripts/oe-go-mod-fetcher-hybrid.py:344-345 | adding a module's size increases exactly its prefix's total, and a new prefix joins the key order at the end |
| Recommend.PrefixSizes | scripts/oe-go-mod-fetcher-hybrid.py:331-347 | the table's keys are the prefixes in order of first appearance, and each total is the sum of the sizes of that prefix's modules (unknown hashes weigh zero) |
| Recommend.BySizePreorder | scripts/oe-go-mod-fetcher-hybrid.py:350 | descending size is a total preorder |
| Recommend.TopPrefixes | scripts/oe-go-mod-fetcher-hybrid.py:350-364 | at most 25 prefixes are listed; which ones, and in what order, is stated by `Recommend.TopPrefixesSpec` |
| Recommend.TopPrefixesSpec | scripts/oe-go-mod-fetcher-hybrid.py:350-364 | the listed prefixes come from the table, heaviest first, no unlisted prefix is heavier than a listed one, with 25 prefixes or fewer all are listed, and of two prefixes of equal size, one listed and one not, the listed one comes first in the table's order |
| Recommend.TopPrefixesContents | scripts/oe-go-mod-fetcher-hybrid.py:350-364 | the listed prefixes come from the table, and with 25 prefixes or fewer all are listed |
| Recommend.TopPrefixesRanked | scripts/oe-go-mod-fetcher-hybrid.py:350-364 | the listed prefixes are heaviest first |
| Recommend.TopPrefixesCut | scripts/oe-go-mod-fetcher-hybrid.py:350-364 | no prefix left out of the list is heavier than one in it |
| Recommend.TopPrefixesStable | scripts/oe-go-mod-fetcher-hybrid.py:350-364 | of two prefixes of equal size, one listed and one left out, the listed one comes first in the table's order (the sort is stable under `reverse=True`) |
| Recommend.CandidatesSpec | scripts/oe-go-mod-fetcher-hybrid.py:367-373 | a listed prefix is a git candidate exactly when it matches a priority pattern, and a gomod candidate exactly when it does not and is over the size threshold |
| Recommend.SplitCandidates | scripts/oe-go-mod-fetcher-hybrid.py:361-373 | the candidate loop keeps both candidate lists in rank order |
| Recommend.RecommendConversion | scripts/oe-go-mod-fetcher-hybrid.py:317-429 | the report's table, listed prefixes and candidates are the ones specified above, and the suggested `--git` value joins the git candidates with `,`, or the default git prefixes when there are none |
| ExtractModules.RefsToTry | scripts/extract-discovered-modules.py:56-57 | the ref itself is always asked, last; a `refs/tags/` ref is asked twice, first in its dereferenced `^{}` form, and any other ref once |
| ExtractModules.HashOf | scripts/extract-discovered-modules.py:66-71 | a hash read from a run is 40 characters long |
| ExtractModules.LsRemote | scripts/extract-discovered-modules.py:49-74 | the answer is empty or 40 characters long |
| ExtractModules.GitLsRemote | scripts/extract-discovered-modules.py:49-74 | the loop over the refs returns the first 40-character hash any of them gives, and `''` when none does or a run raises |
| ExtractModules.LsRemoteFromAnswer | scripts/extract-discovered-modules.py:59-71 | a non-empty answer is the hash one of the queried refs gave |
| ExtractModules.LsRemoteAnswers | scripts/extract-discovered-modules.py:49-74 | a non-empty answer comes from one of the refs tried; a tag's dereferenced hash wins when there is one; any other ref's answer is its own hash or `''` |
| ExtractModules.ResolveShortHash | scripts/extract-discovered-modules.py:77-87 | only a 12-character hash is looked up; anything else comes back as it is |
| ExtractModules.LastVersionMark | scripts/extract-discovered-modules.py:193 | the position found is a `.v<digit>` mark with none after it in range, and there is none when the search fails |
| ExtractModules.DeriveRepo | scripts/extract-discovered-modules.py:168-232 | a guessed repository has a URL, and a path on none of the five recognised hosts gives none |
| ExtractModules.GithubRepo | scripts/extract-discovered-modules.py:169-177 | `github.com/<owner>/<repo>` is its own GitHub repository, and any further components become the subpath |
| ExtractModules.GitlabRepo | scripts/extract-discovered-modules.py:178-182 | `gitlab.com/<owner>/<repo>`, alone or with further components, is the repository of its first three components, with no subpath |
| ExtractModules.BitbucketRepo | scripts/extract-discovered-modules.py:183-187 | `bitbucket.org/<owner>/<repo>`, alone or with further components, is the repository of its first three components, with no subpath |
| ExtractModules.GopkgRepo | scripts/extract-discovered-modules.py:188-205 | `gopkg.in/<pkg>.v<N>` maps through the fixed table, or else to `github.com/go-<pkg>/<pkg>`, with no subpath, whatever follows |
| ExtractModules.GoogleRepo | scripts/extract-discovered-modules.py:206-230 | `google.golang.org/<pkg>` maps through the fixed table, or else to `github.com/golang/<pkg>`, and what follows the package becomes the subpath |
| ExtractModules.DeriveVcsInfo | scripts/extract-discovered-modules.py:152-276 | VCS fields are derived exactly when the repository is recognised |
| ExtractModules.PseudoHashOf | scripts/extract-discovered-modules.py:246-250 | a version ending in `-` or `-0.`, fourteen digits, `-` and twelve lower-case hex digits yields those twelve digits |
| ExtractModules.PseudoVersionInfo | scripts/extract-discovered-modules.py:234-250 | a pseudo-version, with or without `+incompatible`, gives its 12-character hash and no ref, whatever `git ls-remote` would answer |
| ExtractModules.TaggedVersionInfo | scripts/extract-discovered-modules.py:251-269 | a tagged version records the hash `git ls-remote` gives for the recorded ref; the subpath-prefixed tag is recorded unless it resolves to nothing, a subpath exists and the bare tag resolves, and only then the bare tag |
| ExtractModules.ExtractStep | scripts/extract-discovered-modules.py:304-374 | one file raises exactly when it lies directly in `cache/download`; otherwise it adds at most one module, and the module it adds is its record |
| ExtractModules.ExtractAbort | scripts/extract-discovered-modules.py:304-311 | once a file raises, the whole walk does |
| ExtractModules.CountAtVersionDir | scripts/extract-discovered-modules.py:311-312 | no more files in version directories than files |
| ExtractModules.CountWithOrigin | scripts/extract-discovered-modules.py:330-341 | no more files with a complete origin than files |
| ExtractModules.StepCounts | scripts/extract-discovered-modules.py:304-374 | each file adds one to the total; a file in a version directory adds one module or one skip; an added module comes from a complete origin or is counted as derived |
| ExtractModules.ExtractFails | scripts/extract-discovered-modules.py:304-311 | the walk raises exactly when some file lies directly in `cache/download` |
| ExtractModules.ExtractCounts | scripts/extract-discovered-modules.py:298-381 | after the walk every file is counted, modules plus skips are the files in version directories, and the modules are those with a complete origin plus the derived ones |
| ExtractModules.ExtractProvenance | scripts/extract-discovered-modules.py:304-374 | every extracted module is the record of one of the files |
| ExtractModules.CacheDirDecodes | scripts/extract-discovered-modules.py:311-318 | the cache directory of a module path, escaped as Go escapes it, decodes back to that path |
| ExtractModules.ExtractModulesFrom | scripts/extract-discovered-modules.py:279-383 | the loop over the files computes the extraction specified by the walk |
| Strings.LStripSpec | scripts/oe-go-mod-fetcher.py:124 | `lstrip` removes exactly the leading whitespace: the result is a suffix of the input, does not start with whitespace, and everything dropped is whitespace |
| Strings.RStripSpec | scripts/oe-go-mod-fetcher.py:124 | `rstrip` removes exactly the trailing whitespace, in the same sense |
| Strings.StripSpec | scripts/oe-go-mod-fetcher.py:124 | `strip` leaves neither leading nor trailing whitespace |
| Strings.WordsSpec | scripts/oe-go-mod-fetcher.py:127 | the fields of `split()` are non-empty and hold no whitespace |
| Strings.WordsSingle | scripts/oe-go-mod-fetcher.py:127 | a non-empty whitespace-free string is a single field of `split()` |
| Strings.WordsSpaceJoin | scripts/oe-go-mod-fetcher.py:127 | a whitespace character separates fields: the fields of `a`, whitespace and `b` are those of `a` followed by those of `b` |
| Strings.JoinSplit | scripts/oe-go-mod-fetcher.py:3238 | joining the `/`-components of a path with `/` gives the path back |
| Strings.SplitJoin | scripts/oe-go-mod-fetcher-hybrid.py:335-337 | splitting at `c` the join of `c`-free pieces gives the pieces back |
| Collections.Sort | scripts/oe-go-mod-fetcher-hybrid.py:520 | `sorted` with a key returns a permutation of its input, of the same length, in key order |
| Collections.SortStable | scripts/oe-go-mod-fetcher-hybrid.py:520 | `sorted` is stable: for every element, the elements that tie with it appear in the output in their input order |
| Collections.SortedTakeStable | scripts/oe-go-mod-fetcher-hybrid.py:350-364 | of two tied elements, one among the first `k` of the sorted output and one left out, the kept one occurs first in the input |
| Collections.SortedTake | scripts/oe-go-mod-fetcher-hybrid.py:361 | a prefix of a sorted sequence is sorted and no element left out comes before one kept |
| Collections.DedupSpec | scripts/oe-go-mod-fetcher.py:361-376 | keeping first occurrences yields no repeats, exactly the input's elements, in order of first occurrence |
| Collections.DedupSnoc | scripts/oe-go-mod-fetcher.py:365-366 | one more element is appended exactly when it is not yet present |
| Collections.LastWinsStep | scripts/oe-go-mod-fetcher-hybrid.py:203-207 | assigning one more dictionary entry keeps every key mapped to the value of its last assignment |

## Left out

- File, process and network I/O are not modelled. Files are read as sequences of lines, and a missing `go.sum` or `go.mod` reads as no lines. A missing `go-mod-git.inc` or `go-mod-cache.inc` stops the hybrid script with an error before any parsing; that exit is outside this model. JSON files are read as already-decoded maps, and include files are returned as line sequences rather than written. Printing, logging, `argparse` and `main` are also out.
- The subprocess and network work of the fetcher is outside this model: commit verification with its verification cache and that cache's `datetime.now()` age check, the fetcher's own `git_ls_remote` with its clone cache, `go mod download`, `go list`, vanity-URL queries, proxy checksum fetches and the verification thread pool.
- `derive_vcs_info` in `oe-go-mod-fetcher.py` and the recipe generation around the `SRC_URI` entries are not part of this model. The remaining recipe steps are also out: grouping commits by a SHA-256 repository key, the `go-mod-cache.inc` writer and the verification gate.
- `ExtractModules.ResolveShortHash`: the GitHub API, `ls-remote` and clone lookups for a 12-character hash are one opaque `lookup` parameter. Only the length guard is modelled.
- `ExtractModules.GitLsRemote`: the `git ls-remote` run is a `Runner` parameter that returns the exit status and standard output, or nothing when the run raises. The 30-second timeout is part of that parameter.
- `ExtractModules.ExtractModulesFrom`: the `rglob` walk order, the reading of `.info` files and the JSON decoding are the input list of files. The missing-cache-directory error, the progress output and the `modules.json` writing are out.
- `Hybrid.CacheInclude`: `json.dumps` of a module record is an `encode` parameter, so the JSON text itself is not modelled.
- `Hybrid.GomodInclude`: the checksums fetched in parallel from the module proxy are an input map.
- `Recommend.RecommendConversion`: the percentages and `format_size` (floating point) are out. So are the total size, the display of only the first ten gomod candidates and the printed command. Cache sizes from disk are an input map.
- `Recommend.LoadHybridConfig`: a config file that decodes to valid JSON other than an object is not modelled. The input is either nothing (missing, unreadable or invalid) or a decoded object. How the three settings are typed inside the object is not modelled either.
- `Overrides.FetcherState.PruneMetadataCache`: the dictionary iteration order is any order, so the contract holds for every order. `Overrides.PruneBy` states the same for any per-entry verdict.
- `PseudoVersion.DeriveTimestampFromVersion`: years below 1000 are formatted with four digits, which is what `strftime('%Y')` gives on most platforms but not all.
- `Strings.IsDigit`: `str.isdigit`, `\d` and `\w` are modelled for ASCII only. Unicode digits and letters that Python also accepts are not modelled.
- `GitInc.ParseGoModGitInc`: `line.strip()` uses Python's whitespace set. The regular expression is modelled positionally, for the matches the pattern can produce.
- The `ThreadPoolExecutor` checksum fetching and the `VERIFY_REPO_LOCKS` locking are out; nothing concurrent is modelled.
