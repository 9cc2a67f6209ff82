/**
 * The module-path case encoding of the Go module proxy protocol: every
 * upper-case ASCII letter becomes `!` followed by its lower-case form, so
 * that paths differing only in letter case never collide on a
 * case-insensitive file system. `Escape` is `escape_module_path` (and the
 * same substitution the hybrid converter applies to module paths and
 * versions); `Unescape` is `unescape_module_path` (and the substitution the
 * module extractor applies to cache directory names).
 */
module PathCodec {
  import opened Strings

  /** Encoding: each upper-case ASCII letter becomes `!` and its lower-case form. */
  function Escape(path: string): (r: string)
    ensures |r| >= |path|
    ensures forall i :: 0 <= i < |r| ==> !IsUpper(r[i])
  {
    if |path| == 0 then ""
    else if IsUpper(path[0]) then ['!', ToLower(path[0])] + Escape(path[1..])
    else [path[0]] + Escape(path[1..])
  }

  /** Decoding: `!` and a lower-case letter become the upper-case letter; any other `!` is kept. */
  function Unescape(path: string): (r: string)
    ensures |r| <= |path|
  {
    if |path| == 0 then ""
    else if |path| >= 2 && path[0] == '!' && IsLower(path[1]) then [ToUpper(path[1])] + Unescape(path[2..])
    else [path[0]] + Unescape(path[1..])
  }

  /** Decoding an encoded path gives the path back, for every path without `!`. */
  lemma {:induction false} UnescapeEscape(path: string)
    requires '!' !in path
    ensures Unescape(Escape(path)) == path
  {
    if |path| > 0 {
      UnescapeEscape(path[1..]);
      var e := Escape(path[1..]);
      if IsUpper(path[0]) {
        assert Escape(path) == ['!', ToLower(path[0])] + e;
        assert (['!', ToLower(path[0])] + e)[2..] == e;
        assert ToUpper(ToLower(path[0])) == path[0];
      } else {
        assert Escape(path) == [path[0]] + e;
        assert ([path[0]] + e)[1..] == e;
      }
      assert path == [path[0]] + path[1..];
    }
  }

  /** A path without `!` is its own decoding. */
  lemma {:induction false} UnescapeWithoutMarker(s: string)
    requires '!' !in s
    ensures Unescape(s) == s
  {
    if |s| > 0 {
      UnescapeWithoutMarker(s[1..]);
      assert s == [s[0]] + s[1..];
    }
  }

  /** A path without upper-case letters is its own encoding. */
  lemma {:induction false} EscapeWithoutUpper(s: string)
    requires forall i :: 0 <= i < |s| ==> !IsUpper(s[i])
    ensures Escape(s) == s
  {
    if |s| > 0 {
      EscapeWithoutUpper(s[1..]);
      assert s == [s[0]] + s[1..];
    }
  }

  /** ASCII case folding, as a case-insensitive file system compares names. */
  function FoldCase(s: string): (r: string)
    ensures |r| == |s|
    ensures forall i :: 0 <= i < |r| ==> !IsUpper(r[i])
  {
    if |s| == 0 then ""
    else [if IsUpper(s[0]) then ToLower(s[0]) else s[0]] + FoldCase(s[1..])
  }

  lemma {:induction false} FoldCaseOfLower(s: string)
    requires forall i :: 0 <= i < |s| ==> !IsUpper(s[i])
    ensures FoldCase(s) == s
  {
    if |s| > 0 {
      FoldCaseOfLower(s[1..]);
      assert s == [s[0]] + s[1..];
    }
  }

  /**
   * Two different `!`-free module paths (for instance two that differ only
   * in letter case) are stored under names that stay different after case
   * folding.
   */
  lemma NoCaseInsensitiveCollision(p: string, q: string)
    requires '!' !in p && '!' !in q && p != q
    ensures FoldCase(Escape(p)) != FoldCase(Escape(q))
  {
    FoldCaseOfLower(Escape(p));
    FoldCaseOfLower(Escape(q));
    UnescapeEscape(p);
    UnescapeEscape(q);
  }
}
