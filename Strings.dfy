/**
 * The parts of Python's `str` that the scripts rely on: `strip`, `split`
 * (on whitespace, on a character, on a separator string), `join`,
 * `startswith`/`endswith`, `in`, character classes and the lexicographic
 * order used by `sorted`.
 */
module Strings {
  import opened Wrappers

  /** `str.isspace()` for one character: the whitespace set Python's `strip()` and `split()` use. */
  predicate IsSpace(c: char) {
    c == ' ' || ('\t' <= c <= '\r') || ('\U{1c}' <= c <= '\U{1f}') || c == '\U{85}' || c == '\U{a0}'
    || c == '\U{1680}' || ('\U{2000}' <= c <= '\U{200a}') || c == '\U{2028}' || c == '\U{2029}'
    || c == '\U{202f}' || c == '\U{205f}' || c == '\U{3000}'
  }

  predicate IsDigit(c: char) { '0' <= c <= '9' }
  predicate IsUpper(c: char) { 'A' <= c <= 'Z' }
  predicate IsLower(c: char) { 'a' <= c <= 'z' }
  /** `[0-9a-fA-F]` */
  predicate IsHexDigit(c: char) { IsDigit(c) || ('a' <= c <= 'f') || ('A' <= c <= 'F') }
  /** `[0-9a-f]` */
  predicate IsLowerHexDigit(c: char) { IsDigit(c) || ('a' <= c <= 'f') }
  /** `\w` on ASCII: letters, digits and underscore. */
  predicate IsWordChar(c: char) { IsDigit(c) || IsUpper(c) || IsLower(c) || c == '_' }

  function ToLower(c: char): (r: char)
    requires IsUpper(c)
    ensures IsLower(r)
  {
    (c as int + 32) as char
  }

  function ToUpper(c: char): (r: char)
    requires IsLower(c)
    ensures IsUpper(r) && ToLower(r) == c
  {
    (c as int - 32) as char
  }

  predicate NoSpace(s: string) { forall i :: 0 <= i < |s| ==> !IsSpace(s[i]) }
  predicate AllDigits(s: string) { forall i :: 0 <= i < |s| ==> IsDigit(s[i]) }
  predicate AllHex(s: string) { forall i :: 0 <= i < |s| ==> IsHexDigit(s[i]) }
  predicate AllLowerHex(s: string) { forall i :: 0 <= i < |s| ==> IsLowerHexDigit(s[i]) }

  /** The value of a string of decimal digits. */
  function Num(s: string): (n: nat)
    requires AllDigits(s)
  {
    if |s| == 0 then 0 else 10 * Num(s[..|s| - 1]) + (s[|s| - 1] as int - '0' as int)
  }

  /** Neither starts nor ends with whitespace. */
  predicate Trimmed(s: string) { s == [] || (!IsSpace(s[0]) && !IsSpace(s[|s| - 1])) }

  predicate StartsWith(s: string, prefix: string) {
    |prefix| <= |s| && s[..|prefix|] == prefix
  }

  predicate EndsWith(s: string, suffix: string) {
    |suffix| <= |s| && s[|s| - |suffix|..] == suffix
  }

  /** `sub in s` */
  predicate Contains(s: string, sub: string)
    decreases |s|
  {
    StartsWith(s, sub) || (|s| > 0 && Contains(s[1..], sub))
  }

  /** `s.find(sub)`: the first index at which `sub` occurs. */
  function Find(s: string, sub: string): (r: Option<nat>)
    decreases |s|
    ensures r.Some? ==> r.value + |sub| <= |s|
  {
    if StartsWith(s, sub) then Some(0)
    else if |s| == 0 then None
    else match Find(s[1..], sub)
      case None => None
      case Some(i) => Some(i + 1)
  }

  /** An occurrence of `sub` contains its first character. */
  lemma {:induction false} ContainsFirst(s: string, sub: string)
    requires |sub| > 0 && Contains(s, sub)
    ensures sub[0] in s
    decreases |s|
  {
    if StartsWith(s, sub) {
      assert s[0] == sub[0];
    } else {
      ContainsFirst(s[1..], sub);
      assert sub[0] in s[1..];
    }
  }

  /** `find` gives the first occurrence, and nothing exactly when there is none. */
  lemma {:induction false} FindSpec(s: string, sub: string)
    decreases |s|
    ensures Find(s, sub).Some? ==> var i := Find(s, sub).value;
      s[i..i + |sub|] == sub && forall j :: 0 <= j < i ==> !StartsWith(s[j..], sub)
    ensures Find(s, sub).None? <==> !Contains(s, sub)
  {
    if !StartsWith(s, sub) && |s| > 0 {
      FindSpec(s[1..], sub);
      if Find(s[1..], sub).Some? {
        var i := Find(s[1..], sub).value;
        assert s[i + 1..i + 1 + |sub|] == s[1..][i..i + |sub|];
        forall j | 1 <= j <= i ensures !StartsWith(s[j..], sub) {
          assert s[j..] == s[1..][j - 1..];
        }
      }
    }
  }

  /** When the prefix cannot start an occurrence, the first occurrence is the one right after it. */
  lemma {:induction false} FindAfter(p: string, sub: string, t: string)
    requires |sub| > 0 && sub[0] !in p
    ensures Find(p + sub + t, sub) == Some(|p|)
    decreases |p|
  {
    var s := p + sub + t;
    if |p| == 0 {
      assert s[..|sub|] == sub;
    } else {
      assert s[0] == p[0] != sub[0];
      assert s[1..] == p[1..] + sub + t;
      FindAfter(p[1..], sub, t);
    }
  }

  /** A string contains whatever is written into it. */
  lemma {:induction false} ContainsIn(a: string, sub: string, b: string)
    ensures Contains(a + sub + b, sub)
    decreases |a|
  {
    if |a| == 0 {
      assert (a + sub + b)[..|sub|] == sub;
    } else {
      assert (a + sub + b)[1..] == a[1..] + sub + b;
      ContainsIn(a[1..], sub, b);
    }
  }

  /** In `a + [c] + b` with `c` in neither part, `c` occurs only at `|a|`. */
  lemma OnlyCharAt(a: string, c: char, b: string)
    requires c !in a && c !in b
    ensures forall i :: 0 <= i < |a + [c] + b| && (a + [c] + b)[i] == c ==> i == |a|
  {
    var s := a + [c] + b;
    forall i | 0 <= i < |s| ensures s[i] == c ==> i == |a| {
      if i < |a| {
        assert s[i] == a[i];
      } else if i > |a| {
        assert s[i] == b[i - |a| - 1];
      }
    }
  }

  /**
   * When the first character of `sub` occurs in `s` only at `k`, and `sub`
   * does not start there, `s` does not contain `sub`.
   */
  lemma {:induction false} NotContainsBut(s: string, sub: string, k: int)
    requires |sub| > 0
    requires forall i :: 0 <= i < |s| && s[i] == sub[0] ==> i == k
    requires !(0 <= k && k + |sub| <= |s| && s[k..k + |sub|] == sub)
    ensures !Contains(s, sub)
    decreases |s|
  {
    if |s| > 0 {
      if |sub| <= |s| {
        assert s[..|sub|][0] == s[0];
        if k != 0 {
          assert s[0] != sub[0];
        }
      }
      assert !StartsWith(s, sub);
      var t := s[1..];
      forall i | 0 <= i < |t| && t[i] == sub[0] ensures i == k - 1 {
        assert t[i] == s[i + 1];
      }
      if 1 <= k && k + |sub| <= |s| {
        assert t[k - 1..k - 1 + |sub|] == s[k..k + |sub|];
      }
      NotContainsBut(t, sub, k - 1);
    }
  }

  /** `s.replace(pat, '')`: the occurrences of `pat`, found left to right, removed. */
  function RemoveAll(s: string, pat: string): (r: string)
    requires |pat| > 0
    decreases |s|
  {
    if |s| == 0 then s
    else if StartsWith(s, pat) then RemoveAll(s[|pat|..], pat)
    else [s[0]] + RemoveAll(s[1..], pat)
  }

  /** Without the first character of `pat`, nothing is removed; a trailing `pat` is removed. */
  lemma {:induction false} RemoveAllAbsent(s: string, pat: string)
    requires |pat| > 0 && pat[0] !in s
    ensures RemoveAll(s, pat) == s
    ensures RemoveAll(s + pat, pat) == s
    decreases |s|
  {
    if |s| == 0 {
      assert (s + pat)[..|pat|] == pat;
      assert (s + pat)[|pat|..] == [];
    } else {
      assert !StartsWith(s, pat) by {
        if |pat| <= |s| {
          assert s[..|pat|][0] == s[0];
        }
      }
      assert !StartsWith(s + pat, pat) by {
        if |pat| <= |s + pat| {
          assert (s + pat)[..|pat|][0] == s[0];
        }
      }
      RemoveAllAbsent(s[1..], pat);
      assert (s + pat)[1..] == s[1..] + pat;
      assert [s[0]] + s[1..] == s;
    }
  }

  /** `s.rfind(c)` for a single character. */
  function RFind(s: string, c: char): (r: Option<nat>)
    ensures r.Some? ==> r.value < |s| && s[r.value] == c && c !in s[r.value + 1..]
    ensures r.None? <==> c !in s
  {
    if |s| == 0 then None
    else if s[|s| - 1] == c then Some(|s| - 1)
    else
      assert s == s[..|s| - 1] + [s[|s| - 1]];
      RFind(s[..|s| - 1], c)
  }

  /** The last occurrence is the one with no occurrence after it. */
  lemma {:induction false} RFindLast(p: string, c: char, t: string)
    requires c !in t
    ensures RFind(p + [c] + t, c) == Some(|p|)
    decreases |t|
  {
    var s := p + [c] + t;
    if |t| > 0 {
      assert s[..|s| - 1] == p + [c] + t[..|t| - 1];
      RFindLast(p, c, t[..|t| - 1]);
    }
  }

  /** A string starts with `prefix` if one of its prefixes does. */
  lemma StartsWithOfPrefix(s: string, n: nat, prefix: string)
    requires n <= |s|
    ensures StartsWith(s[..n], prefix) ==> StartsWith(s, prefix)
  {
    if StartsWith(s[..n], prefix) {
      assert s[..|prefix|] == s[..n][..|prefix|];
    }
  }

  /** `s.lstrip()` */
  function LStrip(s: string): (r: string)
    ensures |r| <= |s|
  {
    if |s| > 0 && IsSpace(s[0]) then LStrip(s[1..]) else s
  }

  /** `lstrip` removes exactly the leading whitespace. */
  lemma {:induction false} LStripSpec(s: string)
    ensures var r := LStrip(s);
      && r == s[|s| - |r|..]
      && (r == [] || !IsSpace(r[0]))
      && forall i :: 0 <= i < |s| - |r| ==> IsSpace(s[i])
  {
    if |s| > 0 && IsSpace(s[0]) {
      LStripSpec(s[1..]);
    }
  }

  /** `s.rstrip()` */
  function RStrip(s: string): (r: string)
    ensures |r| <= |s|
  {
    if |s| > 0 && IsSpace(s[|s| - 1]) then RStrip(s[..|s| - 1]) else s
  }

  /** `rstrip` removes exactly the trailing whitespace. */
  lemma {:induction false} RStripSpec(s: string)
    ensures var r := RStrip(s);
      && r == s[..|r|]
      && (r == [] || !IsSpace(r[|r| - 1]))
      && forall i :: |r| <= i < |s| ==> IsSpace(s[i])
  {
    if |s| > 0 && IsSpace(s[|s| - 1]) {
      RStripSpec(s[..|s| - 1]);
    }
  }

  /** `s.strip()` */
  function Strip(s: string): (r: string)
    ensures |r| <= |s|
  {
    RStrip(LStrip(s))
  }

  /** `strip` leaves no whitespace at either end. */
  lemma StripSpec(s: string)
    ensures Trimmed(Strip(s))
  {
    var l := LStrip(s);
    LStripSpec(s);
    RStripSpec(l);
  }

  /** A string that neither starts nor ends with whitespace is its own `strip`. */
  lemma StripNoEdges(s: string)
    requires Trimmed(s)
    ensures Strip(s) == s
  {
    assert LStrip(s) == s;
    assert RStrip(s) == s;
  }

  /** `strip` is idempotent. */
  lemma StripStrip(s: string)
    ensures Strip(Strip(s)) == Strip(s)
  {
    StripSpec(s);
    StripNoEdges(Strip(s));
  }

  /** A string without whitespace is its own `strip`. */
  lemma StripNoSpace(s: string)
    requires NoSpace(s)
    ensures Strip(s) == s
  {
    assert LStrip(s) == s;
    assert RStrip(s) == s;
  }

  /** `s.rstrip(c)` for a single character. */
  function RStripChar(s: string, c: char): (r: string)
    ensures |r| <= |s| && r == s[..|r|] && (r == [] || r[|r| - 1] != c)
  {
    if |s| > 0 && s[|s| - 1] == c then RStripChar(s[..|s| - 1], c) else s
  }

  /** `s.lstrip(c)` for a single character. */
  function LStripChar(s: string, c: char): (r: string)
    ensures |r| <= |s| && r == s[|s| - |r|..] && (r == [] || r[0] != c)
  {
    if |s| > 0 && s[0] == c then LStripChar(s[1..], c) else s
  }

  /** `s.strip(c)` for a single character. */
  function StripChar(s: string, c: char): (r: string)
    ensures r == [] || (r[0] != c && r[|r| - 1] != c)
  {
    RStripChar(LStripChar(s, c), c)
  }

  /** The first maximal run of non-whitespace characters at the head of `s`. */
  function TakeWord(s: string): (w: string)
    ensures |w| <= |s|
  {
    if |s| == 0 || IsSpace(s[0]) then [] else [s[0]] + TakeWord(s[1..])
  }

  /** `s.split()`: the maximal runs of non-whitespace characters, in order. */
  function Words(s: string): (ws: seq<string>)
    decreases |s|
  {
    if |s| == 0 then []
    else if IsSpace(s[0]) then Words(s[1..])
    else
      var w := TakeWord(s);
      [w] + Words(s[|w|..])
  }

  /** The head word is a non-space prefix of `s` that ends at whitespace or at the end. */
  lemma {:induction false} TakeWordSpec(s: string)
    ensures var w := TakeWord(s);
      && w == s[..|w|]
      && (|w| == |s| || IsSpace(s[|w|]))
      && forall i :: 0 <= i < |w| ==> !IsSpace(w[i])
  {
    if |s| > 0 && !IsSpace(s[0]) {
      TakeWordSpec(s[1..]);
    }
  }

  /** Every field of `split()` is non-empty and free of whitespace. */
  lemma {:induction false} WordsSpec(s: string)
    decreases |s|
    ensures forall k :: 0 <= k < |Words(s)| ==> Words(s)[k] != [] && NoSpace(Words(s)[k])
  {
    if |s| > 0 {
      if IsSpace(s[0]) {
        WordsSpec(s[1..]);
        assert Words(s) == Words(s[1..]);
      } else {
        var w := TakeWord(s);
        TakeWordSpec(s);
        WordsSpec(s[|w|..]);
      }
    }
  }

  /** A whitespace-free string is one word up to the whitespace that follows it. */
  lemma {:induction false} TakeWordBefore(a: string, t: string)
    requires NoSpace(a) && (t == [] || IsSpace(t[0]))
    ensures TakeWord(a + t) == a
    decreases |a|
  {
    if |a| == 0 {
      assert a + t == t;
    } else {
      TakeWordBefore(a[1..], t);
      assert (a + t)[1..] == a[1..] + t;
    }
  }

  /** The head word does not reach past whitespace that follows the string. */
  lemma {:induction false} TakeWordSpaceAfter(a: string, t: string)
    requires t != [] && IsSpace(t[0])
    ensures TakeWord(a + t) == TakeWord(a)
    decreases |a|
  {
    if |a| > 0 && !IsSpace(a[0]) {
      TakeWordSpaceAfter(a[1..], t);
      assert (a + t)[1..] == a[1..] + t;
    }
  }

  /** A non-empty whitespace-free string is a single word. */
  lemma WordsSingle(w: string)
    requires w != [] && NoSpace(w)
    ensures Words(w) == [w]
  {
    TakeWordBefore(w, []);
    assert w + [] == w;
    assert w[|w|..] == [];
  }

  /** Whitespace separates words: the words of `a`, a whitespace character and `b` are those of `a` followed by those of `b`. */
  lemma {:induction false} WordsSpaceJoin(a: string, sp: char, b: string)
    requires IsSpace(sp)
    ensures Words(a + [sp] + b) == Words(a) + Words(b)
    decreases |a|
  {
    var s := a + [sp] + b;
    if |a| == 0 {
      assert s == [sp] + b && s[1..] == b;
    } else if IsSpace(a[0]) {
      WordsSpaceJoin(a[1..], sp, b);
      assert s[1..] == a[1..] + [sp] + b;
    } else {
      var w := TakeWord(a);
      WordsWordFirst(a, [sp] + b);
      assert s == a + ([sp] + b);
      assert a[|w|..] + ([sp] + b) == a[|w|..] + [sp] + b;
      WordsSpaceJoin(a[|w|..], sp, b);
    }
  }

  /** A string that starts with a word keeps that head word when whitespace and more follow it. */
  lemma WordsWordFirst(a: string, t: string)
    requires a != [] && !IsSpace(a[0]) && t != [] && IsSpace(t[0])
    ensures var w := TakeWord(a);
      0 < |w| <= |a| && Words(a + t) == [w] + Words(a[|w|..] + t)
  {
    var w := TakeWord(a);
    TakeWordSpaceAfter(a, t);
    TakeWordSpec(a);
    assert (a + t)[|w|..] == a[|w|..] + t;
  }

  /** `s.split(c)` for a single character: always at least one piece, none containing `c`. */
  function Split(s: string, c: char): (parts: seq<string>)
    ensures |parts| >= 1
    ensures forall k :: 0 <= k < |parts| ==> c !in parts[k]
  {
    if |s| == 0 then [""]
    else
      var rest := Split(s[1..], c);
      if s[0] == c then [""] + rest else [[s[0]] + rest[0]] + rest[1..]
  }

  /** A string without the separator splits into itself alone. */
  lemma {:induction false} SplitNoSep(s: string, c: char)
    requires c !in s
    ensures Split(s, c) == [s]
  {
    if |s| > 0 {
      SplitNoSep(s[1..], c);
      assert s == [s[0]] + s[1..];
    }
  }

  /** Splitting at a first separator peels off the part before it. */
  lemma {:induction false} SplitCons(a: string, c: char, b: string)
    requires c !in a
    ensures Split(a + [c] + b, c) == [a] + Split(b, c)
    decreases |a|
  {
    var s := a + [c] + b;
    if |a| == 0 {
      assert s[1..] == b;
    } else {
      assert s[1..] == a[1..] + [c] + b;
      SplitCons(a[1..], c, b);
      assert [a[0]] + a[1..] == a;
    }
  }

  /** A string holding the separator splits into at least two parts. */
  lemma SplitHasSep(s: string, c: char)
    ensures c in s ==> |Split(s, c)| >= 2
  {
    JoinSplit(s, c);
    if |Split(s, c)| == 1 {
      assert Join(Split(s, c), [c]) == Split(s, c)[0];
    }
  }

  lemma {:induction false} SplitAppend(s: string, c: char, t: string)
    requires c !in t
    ensures Split(s + [c] + t, c) == Split(s, c) + [t]
    decreases |s|
  {
    if |s| == 0 {
      assert s + [c] + t == [c] + t;
      assert ([c] + t)[1..] == t;
      SplitNoSep(t, c);
    } else {
      var u := s + [c] + t;
      assert u[0] == s[0] && u[1..] == s[1..] + [c] + t;
      SplitAppend(s[1..], c, t);
    }
  }

  /** The first piece is everything before the first separator. */
  lemma {:induction false} SplitHead(s: string, c: char, t: string)
    requires c !in s && (t == [] || t[0] == c)
    ensures Split(s + t, c)[0] == s
    decreases |s|
  {
    if |s| == 0 {
      assert s + t == t;
      if t != [] {
        assert Split(t, c) == [""] + Split(t[1..], c);
      }
    } else {
      var u := s + t;
      assert u[0] == s[0] && u[1..] == s[1..] + t;
      SplitHead(s[1..], c, t);
      assert s == [s[0]] + s[1..];
    }
  }

  /** The first piece is a prefix that ends at the end of `s` or at a separator. */
  lemma {:induction false} SplitFirst(s: string, c: char)
    ensures var p := Split(s, c)[0]; |p| <= |s| && s[..|p|] == p && (|p| == |s| || s[|p|] == c)
    decreases |s|
  {
    if |s| > 0 && s[0] != c {
      SplitFirst(s[1..], c);
      var p' := Split(s[1..], c)[0];
      assert Split(s, c)[0] == [s[0]] + p';
      assert s[..|p'| + 1] == [s[0]] + s[1..][..|p'|];
    }
  }

  /** `sep.join(parts)` */
  function Join(parts: seq<string>, sep: string): string {
    if |parts| == 0 then ""
    else if |parts| == 1 then parts[0]
    else parts[0] + sep + Join(parts[1..], sep)
  }

  lemma {:induction false} JoinSplit(s: string, c: char)
    ensures Join(Split(s, c), [c]) == s
  {
    if |s| > 0 {
      var rest := Split(s[1..], c);
      JoinSplit(s[1..], c);
      if s[0] == c {
        assert Split(s, c) == [""] + rest;
        assert Join(Split(s, c), [c]) == "" + [c] + Join(rest, [c]);
      } else {
        var parts := [[s[0]] + rest[0]] + rest[1..];
        assert Split(s, c) == parts;
        if |rest| == 1 {
          assert Join(parts, [c]) == [s[0]] + rest[0];
        } else {
          assert Join(rest, [c]) == rest[0] + [c] + Join(rest[1..], [c]);
          assert parts[1..] == rest[1..];
          assert Join(parts, [c]) == [s[0]] + rest[0] + [c] + Join(rest[1..], [c]);
        }
      }
      assert s == [s[0]] + s[1..];
    }
  }

  /** Join distributes over the last element: `sep.join(p + [x])`. */
  lemma {:induction false} JoinSnoc(parts: seq<string>, x: string, sep: string)
    requires |parts| >= 1
    ensures Join(parts + [x], sep) == Join(parts, sep) + sep + x
  {
    if |parts| == 1 {
      assert (parts + [x])[1..] == [x];
    } else {
      assert (parts + [x])[1..] == parts[1..] + [x];
      JoinSnoc(parts[1..], x, sep);
    }
  }

  /** Pieces without the separator are recovered by splitting their join. */
  lemma {:induction false} SplitJoin(parts: seq<string>, c: char)
    requires |parts| >= 1 && forall k :: 0 <= k < |parts| ==> c !in parts[k]
    ensures Split(Join(parts, [c]), c) == parts
  {
    if |parts| == 1 {
      SplitNoSep(parts[0], c);
    } else {
      var init := parts[..|parts| - 1];
      assert parts == init + [parts[|parts| - 1]];
      SplitJoin(init, c);
      JoinSnoc(init, parts[|parts| - 1], [c]);
      SplitAppend(Join(init, [c]), c, parts[|parts| - 1]);
    }
  }

  /** A head, a middle and a last element joined: one separator between each. */
  lemma JoinThreePieces(head: seq<string>, front: seq<string>, c: string, sep: string)
    requires |head| >= 1 && |front| >= 1
    ensures Join(head + (front + [c]), sep) == Join(head, sep) + sep + Join(front, sep) + sep + c
  {
    JoinAppend(head, front + [c], sep);
    JoinSnoc(front, c, sep);
    var a, b := Join(head, sep), Join(front, sep);
    assert a + sep + (b + sep + c) == a + sep + b + sep + c;
  }

  /** Joining two non-empty lists puts one separator between their joins. */
  lemma {:induction false} JoinAppend(p: seq<string>, q: seq<string>, sep: string)
    requires |p| >= 1 && |q| >= 1
    ensures Join(p + q, sep) == Join(p, sep) + sep + Join(q, sep)
    decreases |q|
  {
    if |q| == 1 {
      assert q == [q[0]];
      JoinSnoc(p, q[0], sep);
    } else {
      var q' := q[..|q| - 1];
      assert p + q == (p + q') + [q[|q| - 1]];
      assert q == q' + [q[|q| - 1]];
      JoinAppend(p, q', sep);
      JoinSnoc(p + q', q[|q| - 1], sep);
      JoinSnoc(q', q[|q| - 1], sep);
      var a, b, c, d := Join(p, sep), Join(q', sep), q[|q| - 1], sep;
      assert (a + d + b) + d + c == a + d + (b + d + c);
    }
  }

  /** `s.split(sep)` for a non-empty separator string. */
  function SplitOn(s: string, sep: string): (parts: seq<string>)
    requires |sep| > 0
    decreases |s|
    ensures |parts| >= 1
  {
    match Find(s, sep)
    case None => [s]
    case Some(i) => [s[..i]] + SplitOn(s[i + |sep|..], sep)
  }

  /** `a <= b` on Python strings: lexicographic by code point, a proper prefix first. */
  predicate Le(a: string, b: string)
    decreases |a|
  {
    |a| == 0 || (|b| > 0 && (a[0] < b[0] || (a[0] == b[0] && Le(a[1..], b[1..]))))
  }

  lemma {:induction false} LeTotal(a: string, b: string)
    ensures Le(a, b) || Le(b, a)
    decreases |a|
  {
    if |a| > 0 && |b| > 0 && a[0] == b[0] {
      LeTotal(a[1..], b[1..]);
    }
  }

  lemma {:induction false} LeTrans(a: string, b: string, c: string)
    requires Le(a, b) && Le(b, c)
    ensures Le(a, c)
    decreases |a|
  {
    if |a| > 0 && a[0] == b[0] && b[0] == c[0] {
      LeTrans(a[1..], b[1..], c[1..]);
    }
  }

  lemma {:induction false} LeAntisym(a: string, b: string)
    requires Le(a, b) && Le(b, a)
    ensures a == b
    decreases |a|
  {
    if |a| > 0 {
      LeAntisym(a[1..], b[1..]);
      assert a == [a[0]] + a[1..] && b == [b[0]] + b[1..];
    }
  }
}
