/**
 * The two go.mod readers of the fetcher. `parse_go_mod_requires` is a line
 * state machine that collects `(module, version)` pairs from single-line
 * `require m v` directives and from the entries of `require ( ... )`
 * blocks; `parse_go_mod_replaces` builds the table of `replace` directives,
 * a later directive for the same old path overwriting an earlier one. A
 * missing go.mod file reads as no lines.
 */
module GoMod {
  import opened Wrappers
  import opened Strings
  import opened Collections

  type Key = (string, string)

  // ---------------------------------------------------------------------------
  // require directives
  // ---------------------------------------------------------------------------

  /**
   * How the require scanner sees one line once it is stripped: the opening
   * `require (` of a block, a lone `)`, a single-line `require` directive
   * (no `(` in it), a blank line or `//` comment, or any other line, which
   * is an entry when it occurs inside a block.
   */
  datatype LineKind = BlockStart | BlockEnd | Directive(fields: seq<string>) | Skip | Entry(fields: seq<string>)

  /** The whitespace-separated fields of a stripped line. */
  function Fields(raw: string): (r: seq<string>)
  {
    Words(Strip(raw))
  }

  function Classify(raw: string): (k: LineKind)
    ensures (k.Directive? || k.Entry?) ==> k.fields == Fields(raw)
  {
    var line := Strip(raw);
    if StartsWith(line, "require (") then BlockStart
    else if line == ")" then BlockEnd
    else if StartsWith(line, "require ") && '(' !in line then Directive(Words(line))
    else if line == [] || StartsWith(line, "//") then Skip
    else Entry(Words(line))
  }

  /** The kinds of the lines, in order. */
  function Kinds(lines: seq<string>): (ks: seq<LineKind>)
    ensures |ks| == |lines|
  {
    if |lines| == 0 then [] else [Classify(lines[0])] + Kinds(lines[1..])
  }

  lemma {:induction false} KindAt(lines: seq<string>, i: nat)
    requires i < |lines|
    ensures Kinds(lines)[i] == Classify(lines[i])
  {
    if i > 0 {
      KindAt(lines[1..], i - 1);
    }
  }

  /**
   * One step of the scanner: from the state "inside a require block" and
   * the kind of one line, the next state and the pair the line yields. A
   * directive yields its second and third fields when it has three, a
   * block entry its first two when it has two; a `)` closes a block, and
   * nothing else changes the state.
   */
  function Step(inRequire: bool, kind: LineKind): (r: (bool, Option<Key>))
  {
    match kind
    case BlockStart => (true, None)
    case BlockEnd => (false, None)
    case Directive(f) => (inRequire, if |f| >= 3 then Some((f[1], f[2])) else None)
    case Skip => (inRequire, None)
    case Entry(f) => (inRequire, if inRequire && |f| >= 2 then Some((f[0], f[1])) else None)
  }

  /**
   * The scanner run over lines of kinds `ks` from state `start`: the state
   * it ends in and the pairs it yields, in order.
   */
  function Run(ks: seq<LineKind>, start: bool): (r: (bool, seq<Key>))
  {
    if |ks| == 0 then (start, [])
    else
      var prev := Run(ks[..|ks| - 1], start);
      var step := Step(prev.0, ks[|ks| - 1]);
      (step.0, prev.1 + if step.1.Some? then [step.1.value] else [])
  }

  /** What the whole file yields, from outside any block. */
  function Requires(lines: seq<string>): (r: seq<Key>)
  {
    Run(Kinds(lines), false).1
  }

  /**
   * `parse_go_mod_requires`: one pass over the lines, toggling the block
   * state and appending every pair found, in file order.
   */
  method ParseGoModRequires(lines: seq<string>) returns (modules: seq<Key>)
    ensures modules == Requires(lines)
  {
    var ks := Kinds(lines);
    modules := [];
    var inRequire := false;
    var n := 0;
    while n < |lines|
      invariant 0 <= n <= |lines|
      invariant inRequire == Run(ks[..n], false).0 && modules == Run(ks[..n], false).1
    {
      assert ks[..n + 1][..n] == ks[..n] && ks[..n + 1][n] == ks[n];
      var kind := ks[n];
      if kind.BlockStart? {
        inRequire := true;
      } else if inRequire && kind.BlockEnd? {
        inRequire := false;
      } else if kind.Directive? {
        var parts := kind.fields;
        if |parts| >= 3 {
          modules := modules + [(parts[1], parts[2])];
        }
      } else if inRequire && kind.Entry? {
        var parts := kind.fields;
        if |parts| >= 2 {
          modules := modules + [(parts[0], parts[1])];
        }
      }
      n := n + 1;
    }
    assert ks[..|lines|] == ks;
  }

  /** Scanning a file in two pieces is scanning the first, then the second from the state the first left. */
  lemma {:induction false} RunAppend(a: seq<LineKind>, b: seq<LineKind>, start: bool)
    ensures Run(a + b, start).0 == Run(b, Run(a, start).0).0
    ensures Run(a + b, start).1 == Run(a, start).1 + Run(b, Run(a, start).0).1
    decreases |b|
  {
    if |b| > 0 {
      var b' := b[..|b| - 1];
      assert (a + b)[..|a + b| - 1] == a + b';
      assert (a + b)[|a + b| - 1] == b[|b| - 1];
      RunAppend(a, b', start);
    } else {
      assert a + b == a;
    }
  }

  /** Every pair the scanner yields is two consecutive fields of one line. */
  lemma {:induction false} RunFromFields(ks: seq<LineKind>, start: bool, m: string, v: string)
    requires (m, v) in Run(ks, start).1
    ensures exists i, j ::
      && 0 <= i < |ks| && (ks[i].Directive? || ks[i].Entry?)
      && 0 <= j && j + 1 < |ks[i].fields| && ks[i].fields[j] == m && ks[i].fields[j + 1] == v
    decreases |ks|
  {
    var n := |ks| - 1;
    var prev := Run(ks[..n], start);
    var step := Step(prev.0, ks[n]);
    if (m, v) in prev.1 {
      RunFromFields(ks[..n], start, m, v);
      var i, j :|
        && 0 <= i < n && (ks[..n][i].Directive? || ks[..n][i].Entry?)
        && 0 <= j && j + 1 < |ks[..n][i].fields| && ks[..n][i].fields[j] == m && ks[..n][i].fields[j + 1] == v;
      assert ks[..n][i] == ks[i];
    } else {
      assert step.1 == Some((m, v));
      if ks[n].Directive? {
        assert ks[n].fields[1] == m && ks[n].fields[2] == v;
      } else {
        assert ks[n].fields[0] == m && ks[n].fields[1] == v;
      }
    }
  }

  /** Every pair `parse_go_mod_requires` returns is two consecutive whitespace-separated fields of one line of the file. */
  lemma RequiresFromFields(lines: seq<string>, m: string, v: string)
    requires (m, v) in Requires(lines)
    ensures exists i, j ::
      && 0 <= i < |lines| && 0 <= j && j + 1 < |Fields(lines[i])|
      && Fields(lines[i])[j] == m && Fields(lines[i])[j + 1] == v
  {
    var ks := Kinds(lines);
    RunFromFields(ks, false, m, v);
    var i, j :|
      && 0 <= i < |ks| && (ks[i].Directive? || ks[i].Entry?)
      && 0 <= j && j + 1 < |ks[i].fields| && ks[i].fields[j] == m && ks[i].fields[j + 1] == v;
    KindAt(lines, i);
  }

  /** Scanning one more line: the scan of the rest, then one step on that line. */
  lemma RequiresSnoc(pre: seq<string>, raw: string)
    ensures var prev := Run(Kinds(pre), false);
      var step := Step(prev.0, Classify(raw));
      Requires(pre + [raw]) == prev.1 + if step.1.Some? then [step.1.value] else []
  {
    KindsAppend(pre, [raw]);
    assert Kinds([raw]) == [Classify(raw)];
    var ks := Kinds(pre + [raw]);
    assert ks[..|ks| - 1] == Kinds(pre);
  }

  /** The keyword alone is one field. */
  lemma RequireWord()
    ensures Words("require") == ["require"]
  {
    var w := "require";
    forall i | 0 <= i < |w| ensures !IsSpace(w[i]) {
      assert 'a' <= w[i] <= 'z';
    }
    WordsSingle(w);
  }

  /** The fields of `require <m> <v>` are the keyword, `m` and `v`. */
  lemma RequireLineWords(m: string, v: string)
    requires m != [] && v != [] && NoSpace(m) && NoSpace(v)
    ensures Words("require " + m + " " + v) == ["require", m, v]
  {
    assert "require " + m + " " + v == "require" + [' '] + (m + [' '] + v);
    WordsSpaceJoin("require", ' ', m + [' '] + v);
    RequireWord();
    WordsSpaceJoin(m, ' ', v);
    WordsSingle(m);
    WordsSingle(v);
  }

  /** `require <m> <v>` is a single-line directive with those three fields. */
  lemma RequireLineKind(m: string, v: string)
    requires m != [] && v != [] && NoSpace(m) && NoSpace(v) && '(' !in m && '(' !in v
    ensures Classify("require " + m + " " + v) == Directive(["require", m, v])
  {
    var line := "require " + m + " " + v;
    assert line[0] == 'r' && line[|line| - 1] == v[|v| - 1];
    StripNoEdges(line);
    assert line[8] == m[0];
    assert line[..8] == "require ";
    assert '(' !in line;
    RequireLineWords(m, v);
  }

  /** A single-line `require <m> <v>` directive yields `(m, v)`, after what the lines before it yield. */
  lemma SingleRequire(pre: seq<string>, m: string, v: string)
    requires m != [] && v != [] && NoSpace(m) && NoSpace(v) && '(' !in m && '(' !in v
    ensures Requires(pre + ["require " + m + " " + v]) == Requires(pre) + [(m, v)]
  {
    RequireLineKind(m, v);
    RequiresSnoc(pre, "require " + m + " " + v);
  }

  /** Outside a require block, a line that is not a directive, a delimiter, blank or a comment yields nothing. */
  lemma OutsideBlock(pre: seq<string>, raw: string)
    requires !Run(Kinds(pre), false).0 && Classify(raw).Entry?
    ensures Requires(pre + [raw]) == Requires(pre)
  {
    RequiresSnoc(pre, raw);
  }

  /** An ordinary entry inside a require block: neither a directive nor `)`, not blank or a comment, two or more fields. */
  predicate IsBlockEntry(raw: string) {
    Classify(raw).Entry? && |Classify(raw).fields| >= 2
  }

  /** The entries of a require block, each as its first two fields. */
  function EntryPairs(entries: seq<string>): (r: seq<Key>)
    requires forall i :: 0 <= i < |entries| ==> IsBlockEntry(entries[i])
    ensures |r| == |entries|
  {
    if |entries| == 0 then []
    else
      var last := entries[|entries| - 1];
      assert IsBlockEntry(last);
      EntryPairs(entries[..|entries| - 1]) + [(Fields(last)[0], Fields(last)[1])]
  }

  /** Inside a block, a run of ordinary entries yields their first two fields, in order, and stays inside. */
  lemma {:induction false} BlockEntries(entries: seq<string>)
    requires forall i :: 0 <= i < |entries| ==> IsBlockEntry(entries[i])
    ensures Run(Kinds(entries), true) == (true, EntryPairs(entries))
  {
    if |entries| > 0 {
      var n := |entries| - 1;
      var ks := Kinds(entries);
      KindsPrefix(entries, n);
      KindAt(entries, n);
      BlockEntries(entries[..n]);
    }
  }

  /** The kinds of a prefix are the prefix of the kinds. */
  lemma {:induction false} KindsPrefix(lines: seq<string>, n: nat)
    requires n <= |lines|
    ensures Kinds(lines[..n]) == Kinds(lines)[..n]
  {
    forall i | 0 <= i < n ensures Kinds(lines[..n])[i] == Kinds(lines)[..n][i] {
      KindAt(lines[..n], i);
      KindAt(lines, i);
    }
  }

  /** Classifying two pieces of a file is classifying each. */
  lemma {:induction false} KindsAppend(a: seq<string>, b: seq<string>)
    ensures Kinds(a + b) == Kinds(a) + Kinds(b)
    decreases |a|
  {
    if |a| > 0 {
      assert (a + b)[0] == a[0] && (a + b)[1..] == a[1..] + b;
      KindsAppend(a[1..], b);
      assert Kinds(a + b) == [Classify(a[0])] + Kinds(a[1..] + b);
    } else {
      assert a + b == b;
    }
  }

  /** The lines that open and close a require block. */
  lemma BlockDelimiters()
    ensures Kinds(["require ("]) == [BlockStart]
    ensures Kinds([")"]) == [BlockEnd]
  {
    StripNoEdges("require (");
    StripNoEdges(")");
  }

  /**
   * A whole `require ( ... )` block yields exactly the pairs of its
   * entries, and the scanner is outside a block again after its `)`.
   */
  lemma RequireBlock(entries: seq<string>)
    requires forall i :: 0 <= i < |entries| ==> IsBlockEntry(entries[i])
    ensures Requires(["require ("] + entries + [")"]) == EntryPairs(entries)
    ensures !Run(Kinds(["require ("] + entries + [")"]), false).0
  {
    var body := Kinds(entries);
    KindsAppend(["require ("], entries);
    KindsAppend(["require ("] + entries, [")"]);
    BlockDelimiters();
    BlockEntries(entries);
    RunAppend([BlockStart], body, false);
    RunAppend([BlockStart] + body, [BlockEnd], false);
  }

  // ---------------------------------------------------------------------------
  // replace directives
  // ---------------------------------------------------------------------------

  /** A replacement target: the new module path and its version (`""` when the directive gives none). */
  type Target = (string, string)

  /**
   * What one line contributes to the replace table: lines that neither
   * start with `replace ` nor contain `=>` are skipped, as are those that
   * do not split into exactly two sides at `=>` and those with a blank
   * side; otherwise the old path (first field on the left) maps to the new
   * path and version (first two fields on the right).
   */
  function ReplaceOf(raw: string): (r: Option<(string, Target)>)
  {
    var line := Strip(raw);
    if !StartsWith(line, "replace ") && !Contains(line, "=>") then None
    else
      var body := if StartsWith(line, "replace ") then Strip(line[8..]) else line;
      var sides := SplitOn(body, "=>");
      if |sides| != 2 then None
      else
        var left := Words(Strip(sides[0]));
        var right := Words(Strip(sides[1]));
        if |left| == 0 || |right| == 0 then None
        else Some((left[0], (right[0], if |right| > 1 then right[1] else "")))
  }

  /** A line with no `=>` in it contributes nothing, even a `replace ` line. */
  lemma ReplaceNeedsArrow(raw: string)
    requires !Contains(Strip(raw), "=>")
    ensures ReplaceOf(raw).None?
  {
    var line := Strip(raw);
    if StartsWith(line, "replace ") {
      var body := Strip(line[8..]);
      if Contains(body, "=>") {
        StripContains(line[8..], "=>");
        ContainsSuffix(line, 8, "=>");
        assert false;
      }
      FindSpec(body, "=>");
      assert SplitOn(body, "=>") == [body];
    }
  }

  /** What a later part of a string contains, the string contains. */
  lemma {:induction false} ContainsSuffix(s: string, k: nat, sub: string)
    requires k <= |s| && Contains(s[k..], sub)
    ensures Contains(s, sub)
    decreases k
  {
    if k > 0 {
      assert s[1..][k - 1..] == s[k..];
      ContainsSuffix(s[1..], k - 1, sub);
    }
  }

  /** What a prefix of a string contains, the string contains. */
  lemma {:induction false} PrefixContains(s: string, k: nat, sub: string)
    requires k <= |s| && Contains(s[..k], sub)
    ensures Contains(s, sub)
    decreases k
  {
    if StartsWith(s[..k], sub) {
      assert s[..k][..|sub|] == s[..|sub|];
    } else {
      assert k > 0 && Contains(s[..k][1..], sub);
      assert s[..k][1..] == s[1..][..k - 1];
      PrefixContains(s[1..], k - 1, sub);
    }
  }

  /** What the stripped string contains, the string contains. */
  lemma StripContains(s: string, sub: string)
    requires Contains(Strip(s), sub)
    ensures Contains(s, sub)
  {
    var l := LStrip(s);
    LStripSpec(s);
    RStripSpec(l);
    PrefixContains(l, |RStrip(l)|, sub);
    ContainsSuffix(s, |s| - |l|, sub);
  }

  /** The contribution of each line, in file order. */
  function Replacements(lines: seq<string>): (es: seq<Option<(string, Target)>>)
  {
    if |lines| == 0 then [] else Replacements(lines[..|lines| - 1]) + [ReplaceOf(lines[|lines| - 1])]
  }

  /**
   * `parse_go_mod_replaces`: every old path that some line replaces maps to
   * the target of the last line that replaces it, and no other path is in
   * the table.
   */
  method ParseGoModReplaces(lines: seq<string>) returns (table: map<string, Target>)
    ensures LastWins(table, map[], Replacements(lines))
  {
    table := map[];
    LastWinsEmpty(table);
    var n := 0;
    while n < |lines|
      invariant 0 <= n <= |lines|
      invariant LastWins(table, map[], Replacements(lines[..n]))
    {
      var e := ReplaceOf(lines[n]);
      LastWinsStep(table, map[], Replacements(lines[..n]), e);
      assert lines[..n + 1][..n] == lines[..n];
      if e.Some? {
        table := table[e.value.0 := e.value.1];
      }
      n := n + 1;
    }
    assert lines[..|lines|] == lines;
  }
}
