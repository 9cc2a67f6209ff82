/**
 * Sequence and table idioms shared by the scripts: Python's stable `sorted`,
 * the "append if not already in the list" de-duplication, and dictionaries
 * filled line by line where a later line overwrites an earlier one.
 */
module Collections {
  import opened Wrappers

  // ---------------------------------------------------------------------------
  // Stable sorting by a key order
  // ---------------------------------------------------------------------------

  /** `le` is total and transitive: what `sorted` needs of its key comparison. */
  ghost predicate TotalPreorder<T(!new)>(le: (T, T) -> bool) {
    && (forall a, b :: le(a, b) || le(b, a))
    && (forall a, b, c :: le(a, b) && le(b, c) ==> le(a, c))
  }

  ghost predicate SortedBy<T>(s: seq<T>, le: (T, T) -> bool) {
    forall i, j :: 0 <= i < j < |s| ==> le(s[i], s[j])
  }

  /** Inserts `x` after every element that is not strictly greater than it. */
  function Insert<T(!new)>(sorted: seq<T>, x: T, le: (T, T) -> bool): (r: seq<T>)
    ensures multiset(r) == multiset(sorted) + multiset{x} && |r| == |sorted| + 1
  {
    if |sorted| == 0 then [x]
    else if !le(sorted[0], x) then [x] + sorted
    else
      assert sorted == [sorted[0]] + sorted[1..];
      [sorted[0]] + Insert(sorted[1..], x, le)
  }

  lemma {:induction false} InsertSorted<T(!new)>(sorted: seq<T>, x: T, le: (T, T) -> bool)
    requires TotalPreorder(le) && SortedBy(sorted, le)
    ensures SortedBy(Insert(sorted, x, le), le)
  {
    if |sorted| == 0 {
    } else if !le(sorted[0], x) {
      assert le(x, sorted[0]);
      var r := [x] + sorted;
      forall i, j | 0 <= i < j < |r| ensures le(r[i], r[j]) {
        if i == 0 && j > 1 {
          assert le(sorted[0], sorted[j - 1]);
        }
      }
    } else {
      var tail := sorted[1..];
      InsertSorted(tail, x, le);
      var rest := Insert(tail, x, le);
      forall e | e in rest ensures le(sorted[0], e) {
        assert e in multiset(rest);
        if e != x {
          assert e in multiset(tail);
          var k :| 0 <= k < |tail| && tail[k] == e;
          assert le(sorted[0], sorted[k + 1]);
        }
      }
      var r := [sorted[0]] + rest;
      forall i, j | 0 <= i < j < |r| ensures le(r[i], r[j]) {
        if i == 0 {
          assert r[j] == rest[j - 1];
        } else {
          assert r[i] == rest[i - 1] && r[j] == rest[j - 1];
        }
      }
    }
  }

  /** `sorted(s)` under `le`: insertion of each element, left to right, keeps equal elements in input order. */
  function Sort<T(!new)>(s: seq<T>, le: (T, T) -> bool): (r: seq<T>)
    requires TotalPreorder(le)
    ensures multiset(r) == multiset(s) && |r| == |s|
    ensures SortedBy(r, le)
  {
    if |s| == 0 then []
    else
      assert s == s[..|s| - 1] + [s[|s| - 1]];
      var sortedInit := Sort(s[..|s| - 1], le);
      InsertSorted(sortedInit, s[|s| - 1], le);
      Insert(sortedInit, s[|s| - 1], le)
  }

  /** The elements of `s` that `le` ties with `x` (each `le` the other), in their order in `s`. */
  function Tied<T(!new)>(s: seq<T>, x: T, le: (T, T) -> bool): (r: seq<T>)
    ensures |r| <= |s|
  {
    if |s| == 0 then []
    else
      assert s == [s[0]] + s[1..];
      (if le(s[0], x) && le(x, s[0]) then [s[0]] else []) + Tied(s[1..], x, le)
  }

  /** `y` is among the ties of `x` exactly when it occurs in `s` and ties with `x`. */
  lemma {:induction false} TiedMember<T(!new)>(s: seq<T>, x: T, y: T, le: (T, T) -> bool)
    ensures y in Tied(s, x, le) <==> y in s && le(y, x) && le(x, y)
  {
    if |s| > 0 {
      TiedMember(s[1..], x, y, le);
      assert s == [s[0]] + s[1..];
    }
  }

  /** A sequence with nothing that ties with `x` has no ties of `x`. */
  lemma {:induction false} TiedNone<T(!new)>(s: seq<T>, x: T, le: (T, T) -> bool)
    requires forall e :: e in s ==> !(le(e, x) && le(x, e))
    ensures Tied(s, x, le) == []
  {
    if |s| > 0 {
      assert s[0] in s;
      assert forall e :: e in s[1..] ==> e in s;
      TiedNone(s[1..], x, le);
    }
  }

  lemma {:induction false} TiedAppend<T(!new)>(a: seq<T>, b: seq<T>, x: T, le: (T, T) -> bool)
    ensures Tied(a + b, x, le) == Tied(a, x, le) + Tied(b, x, le)
  {
    if |a| == 0 {
      assert a + b == b;
    } else {
      assert (a + b)[0] == a[0] && (a + b)[1..] == a[1..] + b;
      TiedAppend(a[1..], b, x, le);
    }
  }

  /** No element of a sorted sequence whose head is above `y` ties with anything `y` ties with. */
  lemma AboveHeadNotTied<T(!new)>(sorted: seq<T>, y: T, x: T, le: (T, T) -> bool)
    requires TotalPreorder(le) && SortedBy(sorted, le) && |sorted| > 0 && !le(sorted[0], y)
    requires le(y, x) && le(x, y)
    ensures Tied(sorted, x, le) == []
  {
    forall e | e in sorted ensures !(le(e, x) && le(x, e)) {
      var k :| 0 <= k < |sorted| && sorted[k] == e;
      assert le(sorted[0], e) by {
        if k > 0 { assert le(sorted[0], sorted[k]); }
      }
    }
    TiedNone(sorted, x, le);
  }

  /** The tail of a sorted sequence is sorted. */
  lemma SortedTail<T>(sorted: seq<T>, le: (T, T) -> bool)
    requires SortedBy(sorted, le) && |sorted| > 0
    ensures SortedBy(sorted[1..], le)
  {
    var tail := sorted[1..];
    forall i, j | 0 <= i < j < |tail| ensures le(tail[i], tail[j]) {
      assert le(sorted[i + 1], sorted[j + 1]);
    }
  }

  /** Insertion puts the new element after every element it ties with. */
  lemma {:induction false} InsertTied<T(!new)>(sorted: seq<T>, y: T, x: T, le: (T, T) -> bool)
    requires TotalPreorder(le) && SortedBy(sorted, le)
    ensures Tied(Insert(sorted, y, le), x, le) == Tied(sorted, x, le) + Tied([y], x, le)
  {
    if |sorted| == 0 {
    } else if !le(sorted[0], y) {
      InsertTiedFront(sorted, y, x, le);
    } else {
      SortedTail(sorted, le);
      InsertTied(sorted[1..], y, x, le);
      InsertTiedCons(sorted, y, x, le);
    }
  }

  /** Inserted in front of a sorted sequence, `y` ties with nothing after it. */
  lemma InsertTiedFront<T(!new)>(sorted: seq<T>, y: T, x: T, le: (T, T) -> bool)
    requires TotalPreorder(le) && SortedBy(sorted, le) && |sorted| > 0 && !le(sorted[0], y)
    ensures Tied(Insert(sorted, y, le), x, le) == Tied(sorted, x, le) + Tied([y], x, le)
  {
    assert Insert(sorted, y, le) == [y] + sorted;
    TiedAppend([y], sorted, x, le);
    if le(y, x) && le(x, y) {
      AboveHeadNotTied(sorted, y, x, le);
    } else {
      assert Tied([y], x, le) == [];
    }
  }

  /** Inserted past the head, `y` keeps the head's ties in front of those of the rest. */
  lemma InsertTiedCons<T(!new)>(sorted: seq<T>, y: T, x: T, le: (T, T) -> bool)
    requires |sorted| > 0 && le(sorted[0], y)
    requires Tied(Insert(sorted[1..], y, le), x, le) == Tied(sorted[1..], x, le) + Tied([y], x, le)
    ensures Tied(Insert(sorted, y, le), x, le) == Tied(sorted, x, le) + Tied([y], x, le)
  {
    var tail, ins := sorted[1..], Insert(sorted[1..], y, le);
    assert sorted == [sorted[0]] + tail;
    assert Insert(sorted, y, le) == [sorted[0]] + ins;
    TiedAppend([sorted[0]], tail, x, le);
    TiedAppend([sorted[0]], ins, x, le);
    Regroup(Tied(Insert(sorted, y, le), x, le), Tied([sorted[0]], x, le), Tied(ins, x, le),
            Tied(tail, x, le), Tied([y], x, le), Tied(sorted, x, le));
  }

  /** `h + (t + n)` regrouped as `(h + t) + n`. */
  lemma Regroup<T>(a: seq<T>, h: seq<T>, b: seq<T>, t: seq<T>, n: seq<T>, c: seq<T>)
    requires a == h + b && b == t + n && c == h + t
    ensures a == c + n
  {
  }

  /** `sorted` is stable: elements that tie keep their input order. */
  lemma {:induction false} SortStable<T(!new)>(s: seq<T>, le: (T, T) -> bool)
    requires TotalPreorder(le)
    ensures forall x :: Tied(Sort(s, le), x, le) == Tied(s, x, le)
  {
    if |s| > 0 {
      var init, y := s[..|s| - 1], s[|s| - 1];
      SortStable(init, le);
      forall x ensures Tied(Sort(s, le), x, le) == Tied(s, x, le) {
        InsertTied(Sort(init, le), y, x, le);
        assert s == init + [y];
        TiedAppend(init, [y], x, le);
      }
    }
  }

  /**
   * Two ways of cutting one sequence: when `p` lies before the first cut
   * and not before the second, whatever lies before the second cut lies
   * before the first.
   */
  lemma CutOrder<T(!new)>(a: seq<T>, b: seq<T>, c: seq<T>, d: seq<T>, p: T, q: T)
    requires a + b == c + d && p in a && q in c && p !in c
    ensures q in a
  {
    var i :| 0 <= i < |a| && a[i] == p;
    assert (c + d)[i] == p;
    assert |c| <= i;
    assert c == (a + b)[..|c|] == a[..|c|];
  }

  /** Cutting a sequence cuts its ties. */
  lemma TiedCut<T(!new)>(s: seq<T>, k: nat, x: T, le: (T, T) -> bool)
    requires k <= |s|
    ensures Tied(s, x, le) == Tied(s[..k], x, le) + Tied(s[k..], x, le)
  {
    assert s == s[..k] + s[k..];
    TiedAppend(s[..k], s[k..], x, le);
  }

  /** Ties in the input: when `q` occurs before `p`, `q` is among the ties of `p` up to `q`, and `p` is not. */
  lemma TiedBefore<T(!new)>(s: seq<T>, p: T, q: T, le: (T, T) -> bool)
    requires p in s && q in s && FirstIndex(s, q) < FirstIndex(s, p) && le(p, q) && le(q, p)
    ensures var j := FirstIndex(s, q);
      q in Tied(s[..j + 1], p, le) && p !in Tied(s[..j + 1], p, le)
  {
    var i, j := FirstIndex(s, p), FirstIndex(s, q);
    assert s[..j + 1] == s[..i][..j + 1];
    assert q == s[..j + 1][j];
    TiedMember(s[..j + 1], p, q, le);
    TiedMember(s[..j + 1], p, p, le);
  }

  /**
   * For any `r` with the same ties as `s`: of two elements that tie, one
   * among the first `k` of `r` and one not, the first occurs first in `s`.
   */
  lemma StableTake<T(!new)>(s: seq<T>, r: seq<T>, k: nat, le: (T, T) -> bool, p: T, q: T)
    requires k <= |r| && Tied(r, p, le) == Tied(s, p, le)
    requires p in s && p in r[..k] && q in s && q !in r[..k] && le(p, q) && le(q, p) && le(p, p)
    ensures FirstIndex(s, p) < FirstIndex(s, q)
  {
    if FirstIndex(s, q) < FirstIndex(s, p) {
      var j := FirstIndex(s, q);
      TiedCut(r, k, p, le);
      TiedCut(s, j + 1, p, le);
      TiedBefore(s, p, q, le);
      TiedMember(r[..k], p, p, le);
      TiedMember(r[..k], p, q, le);
      CutOrder(Tied(r[..k], p, le), Tied(r[k..], p, le), Tied(s[..j + 1], p, le), Tied(s[j + 1..], p, le), p, q);
    }
  }

  /**
   * Of two elements that tie, one kept in the first `k` of the sorted
   * sequence and one left out, the kept one occurs first in the input.
   */
  lemma SortedTakeStable<T(!new)>(s: seq<T>, k: nat, le: (T, T) -> bool, p: T, q: T)
    requires TotalPreorder(le) && k <= |s|
    requires p in Sort(s, le)[..k] && q in s && q !in Sort(s, le)[..k] && le(p, q) && le(q, p)
    ensures p in s && FirstIndex(s, p) < FirstIndex(s, q)
  {
    var r := Sort(s, le);
    assert p in multiset(r);
    SortStable(s, le);
    StableTake(s, r, k, le, p, q);
  }

  /**
   * The first `k` elements of a sorted sequence: still sorted, and no
   * element after them comes before any of them.
   */
  lemma SortedTake<T(!new)>(s: seq<T>, k: nat, le: (T, T) -> bool)
    requires SortedBy(s, le) && k <= |s|
    ensures SortedBy(s[..k], le)
    ensures forall p, q :: p in s && p !in s[..k] && q in s[..k] ==> le(q, p)
  {
    forall p, q | p in s && p !in s[..k] && q in s[..k] ensures le(q, p) {
      assert s == s[..k] + s[k..];
      assert p in s[k..];
      var t :| 0 <= t < |s| - k && s[k..][t] == p;
      var iq :| 0 <= iq < k && s[..k][iq] == q;
      assert le(s[iq], s[k + t]);
    }
  }

  // ---------------------------------------------------------------------------
  // De-duplication: append an element only when it is not yet in the output
  // ---------------------------------------------------------------------------

  predicate NoDuplicates<T(==)>(s: seq<T>) {
    forall i, j :: 0 <= i < j < |s| ==> s[i] != s[j]
  }

  /** The index of the first occurrence of `x` in `s`. */
  function FirstIndex<T(==)>(s: seq<T>, x: T): (k: nat)
    requires x in s
    ensures k < |s| && s[k] == x && x !in s[..k]
  {
    if s[0] == x then 0
    else
      var k := FirstIndex(s[1..], x) + 1;
      assert s[..k] == [s[0]] + s[1..][..k - 1];
      k
  }

  lemma {:induction false} FirstIndexOfPrefix<T>(p: seq<T>, q: seq<T>, x: T)
    requires x in p
    ensures FirstIndex(p + q, x) == FirstIndex(p, x)
  {
    if p[0] != x {
      assert (p + q)[1..] == p[1..] + q;
      FirstIndexOfPrefix(p[1..], q, x);
    }
  }

  /** Keeps the first occurrence of every element, in order. */
  function Dedup<T(==,!new)>(s: seq<T>): (r: seq<T>)
    ensures |r| <= |s|
  {
    if |s| == 0 then []
    else
      var d := Dedup(s[..|s| - 1]);
      if s[|s| - 1] in d then d else d + [s[|s| - 1]]
  }

  /**
   * The result of `Dedup` is duplicate-free, has exactly the elements of
   * `s`, and lists them in the order of their first occurrences in `s`.
   */
  lemma {:induction false} DedupSpec<T(!new)>(s: seq<T>)
    ensures NoDuplicates(Dedup(s))
    ensures forall x :: x in Dedup(s) <==> x in s
    ensures forall i, j :: 0 <= i < j < |Dedup(s)| ==> FirstIndex(s, Dedup(s)[i]) < FirstIndex(s, Dedup(s)[j])
  {
    if |s| > 0 {
      var init := s[..|s| - 1];
      var last := s[|s| - 1];
      DedupSpec(init);
      var d := Dedup(init);
      assert s == init + [last];
      forall x | x in init ensures FirstIndex(s, x) == FirstIndex(init, x) {
        FirstIndexOfPrefix(init, [last], x);
      }
      if last !in d {
        assert last !in init && FirstIndex(s, last) == |s| - 1;
      }
    }
  }

  /** One more element is appended exactly when it is new: the `not in` check. */
  lemma DedupSnoc<T(!new)>(s: seq<T>, x: T)
    ensures Dedup(s + [x]) == if x in Dedup(s) then Dedup(s) else Dedup(s) + [x]
  {
    assert (s + [x])[..|s|] == s;
  }

  /** The first element survives de-duplication in front. */
  lemma DedupHead<T(!new)>(s: seq<T>)
    requires |s| > 0
    ensures |Dedup(s)| > 0 && Dedup(s)[0] == s[0]
  {
    var r := Dedup(s);
    DedupSpec(s);
    assert s[0] in r;
    var j :| 0 <= j < |r| && r[j] == s[0];
    assert FirstIndex(s, r[j]) == 0;
  }

  /**
   * Appends each element of `xs` that the output does not hold yet:
   * starting from the de-duplication of `prefix`, it ends with that of
   * `prefix + xs`.
   */
  method AppendNew<T(==,!new)>(out: seq<T>, ghost prefix: seq<T>, xs: seq<T>) returns (r: seq<T>)
    requires out == Dedup(prefix)
    ensures r == Dedup(prefix + xs)
  {
    r := out;
    var n := 0;
    assert prefix + xs[..0] == prefix;
    while n < |xs|
      invariant 0 <= n <= |xs|
      invariant r == Dedup(prefix + xs[..n])
    {
      DedupSnoc(prefix + xs[..n], xs[n]);
      assert prefix + xs[..n + 1] == prefix + xs[..n] + [xs[n]];
      if xs[n] !in r {
        r := r + [xs[n]];
      }
      n := n + 1;
    }
    assert xs[..|xs|] == xs;
  }

  // ---------------------------------------------------------------------------
  // Dictionaries filled entry by entry (`table[key] = value`, later wins)
  // ---------------------------------------------------------------------------

  /** The keys assigned by the entries that are present. */
  ghost predicate Assigns<K, V>(es: seq<Option<(K, V)>>, k: K) {
    exists i :: 0 <= i < |es| && es[i].Some? && es[i].value.0 == k
  }

  /** Entry `i` is the last one that assigns its key. */
  ghost predicate IsLastFor<K, V>(es: seq<Option<(K, V)>>, i: int) {
    0 <= i < |es| && es[i].Some? &&
    forall j :: i < j < |es| && es[j].Some? ==> es[j].value.0 != es[i].value.0
  }

  /**
   * `r` is `base` after assigning every present entry of `es` in order:
   * it has the keys of `base` and of the entries, each assigned key maps
   * to the value of its last entry, and every other key keeps its value.
   */
  ghost predicate LastWins<K(!new), V>(r: map<K, V>, base: map<K, V>, es: seq<Option<(K, V)>>) {
    && (forall k :: k in r <==> k in base || Assigns(es, k))
    && (forall i :: IsLastFor(es, i) ==> es[i].value.0 in r && r[es[i].value.0] == es[i].value.1)
    && (forall k :: k in base && !Assigns(es, k) ==> r[k] == base[k])
  }

  lemma LastWinsEmpty<K(!new), V>(base: map<K, V>)
    ensures LastWins(base, base, [])
  {
  }

  /** Assigning one more entry (or skipping an absent one) keeps `LastWins`. */
  lemma {:induction false} LastWinsStep<K(!new), V>(r: map<K, V>, base: map<K, V>, es: seq<Option<(K, V)>>, e: Option<(K, V)>)
    requires LastWins(r, base, es)
    ensures LastWins(if e.Some? then r[e.value.0 := e.value.1] else r, base, es + [e])
  {
    var es' := es + [e];
    var r' := if e.Some? then r[e.value.0 := e.value.1] else r;
    forall k ensures Assigns(es', k) <==> Assigns(es, k) || (e.Some? && e.value.0 == k) {
      if Assigns(es', k) {
        var i :| 0 <= i < |es'| && es'[i].Some? && es'[i].value.0 == k;
        if i < |es| { assert es[i] == es'[i]; }
      }
      if Assigns(es, k) {
        var i :| 0 <= i < |es| && es[i].Some? && es[i].value.0 == k;
        assert es'[i] == es[i];
      }
      if e.Some? && e.value.0 == k {
        assert es'[|es|] == e;
      }
    }
    forall i | IsLastFor(es', i) ensures es'[i].value.0 in r' && r'[es'[i].value.0] == es'[i].value.1 {
      if i < |es| {
        assert es'[i] == es[i];
        assert IsLastFor(es, i) by {
          forall j | i < j < |es| && es[j].Some? ensures es[j].value.0 != es[i].value.0 {
            assert es'[j] == es[j];
          }
        }
        assert !(e.Some? && e.value.0 == es[i].value.0) by {
          assert es'[|es|] == e;
        }
      }
    }
  }
}
