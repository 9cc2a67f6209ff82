/**
 * `parse_go_sum`: reads the lines of a go.sum file and splits the
 * (module, version) keys it mentions into those that have a checksum of
 * the module source (they need a .zip) and those that only have a checksum
 * of their `/go.mod` file (they only need a .mod). A missing go.sum file
 * gives the same result as an empty one.
 */
module GoSum {
  import opened Wrappers
  import opened Strings

  type Key = (string, string)

  /** One useful go.sum line: the key it is about and whether it is a `/go.mod` checksum. */
  datatype SumLine = SumLine(key: Key, isGoMod: bool)

  const GoModSuffix := "/go.mod"

  /** `sanitize_module_name`: strips whitespace and one pair of surrounding double quotes. */
  function SanitizeModuleName(name: string): (r: string)
    ensures |r| <= |name|
    ensures name != [] && |Strip(name)| >= 2 && Strip(name)[0] == '"' && Strip(name)[|Strip(name)| - 1] == '"'
            ==> "\"" + r + "\"" == Strip(name)
  {
    if name == [] then name
    else
      var stripped := Strip(name);
      if |stripped| >= 2 && stripped[0] == '"' && stripped[|stripped| - 1] == '"' then
        assert stripped == "\"" + stripped[1..|stripped| - 1] + "\"";
        stripped[1..|stripped| - 1]
      else stripped
  }

  /** The version with a trailing `/go.mod` removed. */
  function TrimGoMod(version: string): (r: string)
    ensures EndsWith(version, GoModSuffix) ==> version == r + GoModSuffix
    ensures !EndsWith(version, GoModSuffix) ==> r == version
  {
    if EndsWith(version, GoModSuffix) then
      assert version == version[..|version| - 7] + GoModSuffix;
      version[..|version| - 7]
    else version
  }

  /**
   * What one line contributes: nothing for blank lines, `//` comments and
   * lines that do not have exactly three whitespace-separated fields;
   * otherwise the key (unquoted module, version without `/go.mod`) and
   * whether the version named the `/go.mod` file.
   */
  function ParseSumLine(line: string): Option<SumLine> {
    var l := Strip(line);
    if l == [] || StartsWith(l, "//") then None
    else
      var parts := Words(l);
      if |parts| != 3 then None
      else
        var version := parts[1];
        var isGoMod := EndsWith(version, GoModSuffix);
        Some(SumLine((SanitizeModuleName(parts[0]), TrimGoMod(version)), isGoMod))
  }

  /**
   * A line contributes a key exactly when, once stripped, it is neither
   * blank nor a `//` comment and has three fields; the key is then its
   * first field without surrounding quotes and its second field without a
   * trailing `/go.mod`, which decides the kind.
   */
  lemma ParseSumLineFields(line: string)
    ensures var l := Strip(line); var r := ParseSumLine(line);
      && (r.Some? <==> l != [] && !StartsWith(l, "//") && |Words(l)| == 3)
      && (r.Some? ==>
        && Words(l)[1] == r.value.key.1 + (if r.value.isGoMod then GoModSuffix else "")
        && (Words(l)[0] == r.value.key.0 || Words(l)[0] == "\"" + r.value.key.0 + "\"")
        && (r.value.isGoMod <==> EndsWith(Words(l)[1], GoModSuffix)))
  {
    var l := Strip(line);
    if l != [] && !StartsWith(l, "//") && |Words(l)| == 3 {
      var parts := Words(l);
      WordsSpec(l);
      StripNoSpace(parts[0]);
      var version := parts[1];
      if EndsWith(version, GoModSuffix) {
        assert version == version[..|version| - 7] + GoModSuffix;
      }
    }
  }

  /** What each line of the file contributes, in order. */
  function Parsed(lines: seq<string>): (ps: seq<Option<SumLine>>)
  {
    seq(|lines|, i requires 0 <= i < |lines| => ParseSumLine(lines[i]))
  }

  /** Some parsed line is a checksum for `k`, of the `/go.mod` file when `isGoMod`, of the source otherwise. */
  ghost predicate HasLine(ps: seq<Option<SumLine>>, k: Key, isGoMod: bool) {
    exists i :: 0 <= i < |ps| && ps[i] == Some(SumLine(k, isGoMod))
  }

  lemma HasLineSnoc(ps: seq<Option<SumLine>>, p: Option<SumLine>)
    ensures forall k, g :: HasLine(ps + [p], k, g) <==> HasLine(ps, k, g) || p == Some(SumLine(k, g))
  {
    forall k, g ensures HasLine(ps + [p], k, g) <==> HasLine(ps, k, g) || p == Some(SumLine(k, g))
    {
      if HasLine(ps + [p], k, g) {
        var i :| 0 <= i < |ps| + 1 && (ps + [p])[i] == Some(SumLine(k, g));
        if i < |ps| {
          assert ps[i] == (ps + [p])[i];
        }
      }
      if HasLine(ps, k, g) {
        var i :| 0 <= i < |ps| && ps[i] == Some(SumLine(k, g));
        assert (ps + [p])[i] == ps[i];
      }
      if p == Some(SumLine(k, g)) {
        assert (ps + [p])[|ps|] == p;
      }
    }
  }

  /** The per-key flags of the first pass (`all_entries`). */
  datatype EntryKinds = EntryKinds(hasSource: bool, hasGoMod: bool)

  /** Records one parsed line in the table of the first pass. */
  function Record(entries: map<Key, EntryKinds>, parsed: Option<SumLine>): (r: map<Key, EntryKinds>)
  {
    match parsed
    case None => entries
    case Some(SumLine(key, isGoMod)) =>
      var kinds := if key in entries then entries[key] else EntryKinds(false, false);
      entries[key := if isGoMod then kinds.(hasGoMod := true) else kinds.(hasSource := true)]
  }

  /** The table of the first pass after reading the parsed lines `ps`. */
  function Entries(ps: seq<Option<SumLine>>): (r: map<Key, EntryKinds>)
  {
    if |ps| == 0 then map[]
    else Record(Entries(ps[..|ps| - 1]), ps[|ps| - 1])
  }

  /** The table of the first pass lists every key seen, with the kinds of checksum seen for it. */
  lemma {:induction false} EntriesMeaning(ps: seq<Option<SumLine>>)
    ensures forall k :: k in Entries(ps) <==> HasLine(ps, k, false) || HasLine(ps, k, true)
    ensures forall k :: k in Entries(ps) ==>
      && (Entries(ps)[k].hasSource <==> HasLine(ps, k, false))
      && (Entries(ps)[k].hasGoMod <==> HasLine(ps, k, true))
  {
    if |ps| > 0 {
      var n := |ps| - 1;
      EntriesMeaning(ps[..n]);
      HasLineSnoc(ps[..n], ps[n]);
      assert ps[..n] + [ps[n]] == ps;
    }
  }

  /**
   * `parse_go_sum`. A key goes to `withSource` iff some line carries a
   * source checksum for it; it goes to `goModOnly` iff it only ever
   * appears with `/go.mod` checksums. So every key seen lands in exactly
   * one of the two sets, and no other key does.
   */
  method ParseGoSum(lines: seq<string>) returns (withSource: set<Key>, goModOnly: set<Key>)
    ensures forall k :: k in withSource <==> HasLine(Parsed(lines), k, false)
    ensures forall k :: k in goModOnly <==> HasLine(Parsed(lines), k, true) && !HasLine(Parsed(lines), k, false)
    ensures withSource !! goModOnly
  {
    ghost var ps := Parsed(lines);
    // First pass: collect all entries.
    var allEntries: map<Key, EntryKinds> := map[];
    var n := 0;
    while n < |lines|
      invariant 0 <= n <= |lines|
      invariant allEntries == Entries(ps[..n])
    {
      var parsed := ParseSumLine(lines[n]);
      assert ps[..n + 1][..n] == ps[..n] && ps[n] == parsed;
      if parsed.Some? {
        var key := parsed.value.key;
        var kinds := if key in allEntries then allEntries[key] else EntryKinds(false, false);
        if parsed.value.isGoMod {
          kinds := kinds.(hasGoMod := true);
        } else {
          kinds := kinds.(hasSource := true);
        }
        allEntries := allEntries[key := kinds];
      }
      n := n + 1;
    }
    assert ps[..|lines|] == ps;
    EntriesMeaning(ps);

    // Second pass: categorise the keys.
    withSource, goModOnly := {}, {};
    var remaining := allEntries.Keys;
    while remaining != {}
      invariant remaining <= allEntries.Keys
      invariant forall k :: k in withSource <==> k in allEntries && k !in remaining && allEntries[k].hasSource
      invariant forall k :: k in goModOnly <==>
        k in allEntries && k !in remaining && !allEntries[k].hasSource && allEntries[k].hasGoMod
      decreases remaining
    {
      var key :| key in remaining;
      var kinds := allEntries[key];
      if kinds.hasSource {
        withSource := withSource + {key};
      } else if kinds.hasGoMod {
        goModOnly := goModOnly + {key};
      }
      remaining := remaining - {key};
    }
  }
}
