/**
 * Go pseudo-versions (`vX.0.0-yyyymmddhhmmss-abcdefabcdef` and the
 * `-pre.0.` / `-0.` forms): recognising one and pulling out its timestamp
 * and short commit (`parse_pseudo_version_tag`), and turning the
 * timestamp into the ISO form the recipes record, with the Unix epoch as
 * the fallback (`derive_timestamp_from_version`).
 */
module PseudoVersion {
  import opened Wrappers
  import opened Strings

  /** An abbreviated commit: six to forty hex digits of either case. */
  predicate IsShortCommit(s: string) {
    6 <= |s| <= 40 && AllHex(s)
  }

  /** The last element of a non-empty sequence (`xs[-1]`). */
  function Last<T>(xs: seq<T>): (x: T)
    requires |xs| > 0
  {
    xs[|xs| - 1]
  }

  /**
   * `parse_pseudo_version_tag`: drops any `+build` suffix, splits at `-`,
   * and takes the last field as the short commit and the part after the
   * last `.` of the field before it as the timestamp. The result is absent
   * unless there are three fields or more, the timestamp is fourteen
   * digits and the commit six to forty hex digits.
   */
  function ParsePseudoVersionTag(tag: string): (r: Option<(string, string)>)
    ensures r.Some? ==> |r.value.0| == 14 && AllDigits(r.value.0) && IsShortCommit(r.value.1)
  {
    var t := Split(tag, '+')[0];
    var parts := Split(t, '-');
    if |parts| < 3 then None
    else
      var shortCommit := Last(parts);
      var timestamp := Last(Split(parts[|parts| - 2], '.'));
      if |timestamp| != 14 || !AllDigits(timestamp) then None
      else if !IsShortCommit(shortCommit) then None
      else Some((timestamp, shortCommit))
  }

  /** Digits and hex digits are none of the separators a pseudo-version uses. */
  lemma SeparatorFree(timestamp: string, shortCommit: string)
    requires AllDigits(timestamp) && AllHex(shortCommit)
    ensures '+' !in timestamp && '-' !in timestamp && '.' !in timestamp
    ensures '+' !in shortCommit && '-' !in shortCommit
  {
    assert forall i :: 0 <= i < |timestamp| ==> IsDigit(timestamp[i]);
    assert forall i :: 0 <= i < |shortCommit| ==> IsHexDigit(shortCommit[i]);
  }

  /** A `+build` suffix does not change what the tag parses to. */
  lemma DropBuild(core: string, build: string)
    requires '+' !in core && (build == [] || build[0] == '+')
    ensures ParsePseudoVersionTag(core + build) == ParsePseudoVersionTag(core)
  {
    SplitHead(core, '+', build);
    SplitNoSep(core, '+');
  }

  /** The `-` fields of a built pseudo-version end in the stamped field and the commit. */
  lemma BuiltFields(base: string, stamped: string, shortCommit: string)
    requires '-' !in stamped && '-' !in shortCommit
    ensures var parts := Split(base + "-" + stamped + "-" + shortCommit, '-');
      |parts| >= 3 && Last(parts) == shortCommit && parts[|parts| - 2] == stamped
  {
    var front := base + "-" + stamped;
    assert front + "-" + shortCommit == front + ['-'] + shortCommit;
    SplitAppend(front, '-', shortCommit);
    assert front == base + ['-'] + stamped;
    SplitAppend(base, '-', stamped);
  }

  /** The part after the last `.` of the middle and the stamp is the stamp. */
  lemma StampAfterDot(mid: string, timestamp: string)
    requires '.' !in timestamp && (mid == [] || Last(mid) == '.')
    ensures Last(Split(mid + timestamp, '.')) == timestamp
  {
    if mid == [] {
      assert mid + timestamp == timestamp;
      SplitNoSep(timestamp, '.');
    } else {
      var m := mid[..|mid| - 1];
      assert mid + timestamp == m + ['.'] + timestamp;
      SplitAppend(m, '.', timestamp);
    }
  }

  /**
   * A tag laid out as a base, `-`, an optional middle ending in `.`, a
   * stamp field, `-`, a commit field and an optional `+build` suffix
   * parses to the stamp and the commit exactly when the stamp is fourteen
   * digits and the commit six to forty hex digits, and to nothing
   * otherwise.
   */
  lemma ParseLayout(base: string, mid: string, stamp: string, shortCommit: string, build: string)
    requires '+' !in base && '+' !in mid && '-' !in mid && (mid == [] || Last(mid) == '.')
    requires '+' !in stamp && '-' !in stamp && '.' !in stamp && '+' !in shortCommit && '-' !in shortCommit
    requires build == [] || build[0] == '+'
    ensures ParsePseudoVersionTag(base + "-" + mid + stamp + "-" + shortCommit + build)
      == if |stamp| == 14 && AllDigits(stamp) && IsShortCommit(shortCommit) then Some((stamp, shortCommit)) else None
  {
    var stamped := mid + stamp;
    var core := base + "-" + stamped + "-" + shortCommit;
    assert core == base + "-" + mid + stamp + "-" + shortCommit;
    assert '+' !in core;
    DropBuild(core, build);
    SplitNoSep(core, '+');
    BuiltFields(base, stamped, shortCommit);
    StampAfterDot(mid, stamp);
  }

  /**
   * Every pseudo-version built from a base version, an optional
   * `pre.0.`-style middle ending in `.`, a fourteen-digit timestamp, a short
   * commit and an optional `+build` suffix parses back to that timestamp
   * and commit.
   */
  lemma ParseBuiltPseudoVersion(base: string, mid: string, timestamp: string, shortCommit: string, build: string)
    requires '+' !in base && '+' !in mid && '-' !in mid && (mid == [] || Last(mid) == '.')
    requires |timestamp| == 14 && AllDigits(timestamp) && IsShortCommit(shortCommit)
    requires build == [] || build[0] == '+'
    ensures ParsePseudoVersionTag(base + "-" + mid + timestamp + "-" + shortCommit + build)
      == Some((timestamp, shortCommit))
  {
    SeparatorFree(timestamp, shortCommit);
    ParseLayout(base, mid, timestamp, shortCommit, build);
  }

  /** A tag with fewer than three `-` fields before its `+build` suffix parses to nothing. */
  lemma TooFewFields(a: string, b: string, build: string)
    requires '+' !in a && '-' !in a && '+' !in b && '-' !in b
    requires build == [] || build[0] == '+'
    ensures ParsePseudoVersionTag(a + build).None?
    ensures ParsePseudoVersionTag(a + "-" + b + build).None?
  {
    SplitHead(a, '+', build);
    SplitNoSep(a, '-');
    var two := a + "-" + b;
    assert '+' !in two;
    SplitHead(two, '+', build);
    assert two == a + ['-'] + b;
    SplitAppend(a, '-', b);
  }

  /** `tag` is laid out as a pseudo-version with this stamp and commit. */
  predicate PseudoLayout(tag: string, stamp: string, shortCommit: string, base: string, mid: string, build: string) {
    && '+' !in base && '+' !in mid && '-' !in mid && (mid == [] || Last(mid) == '.')
    && (build == [] || build[0] == '+')
    && tag == base + "-" + mid + stamp + "-" + shortCommit + build
  }

  /** The text before the `+build` suffix, and the suffix. */
  lemma BuildSuffix(tag: string) returns (build: string)
    ensures var t := Split(tag, '+')[0]; tag == t + build && (build == [] || build[0] == '+')
  {
    var t := Split(tag, '+')[0];
    SplitFirst(tag, '+');
    build := tag[|t|..];
    assert tag == tag[..|t|] + tag[|t|..];
  }

  /** A `-`-free field is an optional middle ending in `.` followed by its last `.` field. */
  lemma StampedField(field: string) returns (mid: string)
    requires '-' !in field && '+' !in field
    ensures '+' !in mid && '-' !in mid && (mid == [] || Last(mid) == '.')
    ensures field == mid + Last(Split(field, '.'))
  {
    var dots := Split(field, '.');
    JoinSplit(field, '.');
    var ts := Last(dots);
    if |dots| == 1 {
      mid := [];
      assert Join(dots, ".") == ts;
    } else {
      var init := dots[..|dots| - 1];
      assert dots == init + [ts];
      JoinSnoc(init, ts, ".");
      mid := Join(init, ".") + ".";
      assert field == mid + ts;
      assert forall i :: 0 <= i < |mid| ==> mid[i] == field[i];
    }
  }

  /** A text of three `-` fields or more is its leading fields, `-`, the next-to-last field, `-` and the last. */
  lemma DashFields(t: string) returns (base: string)
    requires |Split(t, '-')| >= 3 && '+' !in t
    ensures var parts := Split(t, '-'); var n := |parts|;
      t == base + "-" + parts[n - 2] + "-" + parts[n - 1] && '+' !in base && '+' !in parts[n - 2]
  {
    var parts := Split(t, '-');
    var n := |parts|;
    var init := parts[..n - 2];
    assert parts == init + ([parts[n - 2]] + [parts[n - 1]]);
    JoinSplit(t, '-');
    JoinThreePieces(init, [parts[n - 2]], parts[n - 1], "-");
    base := Join(init, "-");
    assert t == base + "-" + parts[n - 2] + "-" + parts[n - 1];
  }

  /** Substituting the stamped field and the text before the suffix into the tag. */
  lemma JoinFive(base: string, mid: string, stamp: string, shortCommit: string, build: string, t: string, field: string)
    requires field == mid + stamp && t == base + "-" + field + "-" + shortCommit
    ensures t + build == base + "-" + mid + stamp + "-" + shortCommit + build
  {
  }

  /** A successful parse comes from a tag laid out as a pseudo-version. */
  lemma ParsedLayout(tag: string, stamp: string, shortCommit: string) returns (base: string, mid: string, build: string)
    requires ParsePseudoVersionTag(tag) == Some((stamp, shortCommit))
    ensures PseudoLayout(tag, stamp, shortCommit, base, mid, build)
  {
    var t := Split(tag, '+')[0];
    build := BuildSuffix(tag);
    var parts := Split(t, '-');
    var n := |parts|;
    assert n >= 3 && shortCommit == parts[n - 1] && stamp == Last(Split(parts[n - 2], '.'));
    base := DashFields(t);
    var field := parts[n - 2];
    mid := StampedField(field);
    assert field == mid + stamp;
    JoinFive(base, mid, stamp, shortCommit, build, t, field);
  }

  /**
   * The parse succeeds with `(stamp, shortCommit)` exactly when the stamp
   * is fourteen digits, the commit six to forty hex digits, and the tag is
   * a base, `-`, an optional middle ending in `.`, the stamp, `-`, the
   * commit and an optional `+build` suffix.
   */
  lemma ParsePseudoVersionTagSpec(tag: string, stamp: string, shortCommit: string)
    ensures ParsePseudoVersionTag(tag) == Some((stamp, shortCommit)) <==>
      && |stamp| == 14 && AllDigits(stamp) && IsShortCommit(shortCommit)
      && exists base, mid, build :: PseudoLayout(tag, stamp, shortCommit, base, mid, build)
  {
    if ParsePseudoVersionTag(tag) == Some((stamp, shortCommit)) {
      var base, mid, build := ParsedLayout(tag, stamp, shortCommit);
    } else if |stamp| == 14 && AllDigits(stamp) && IsShortCommit(shortCommit) {
      forall base, mid, build | PseudoLayout(tag, stamp, shortCommit, base, mid, build)
        ensures false
      {
        ParseBuiltPseudoVersion(base, mid, stamp, shortCommit, build);
      }
    }
  }

  // ---------------------------------------------------------------------------
  // Calendar check of the fourteen-digit stamp parse
  // ---------------------------------------------------------------------------

  predicate IsLeapYear(y: int) {
    y % 4 == 0 && (y % 100 != 0 || y % 400 == 0)
  }

  function DaysInMonth(y: int, m: int): (d: int)
    requires 1 <= m <= 12
    ensures 28 <= d <= 31
    ensures m == 2 ==> (d == 29 <==> IsLeapYear(y))
  {
    if m == 2 then (if IsLeapYear(y) then 29 else 28)
    else if m == 4 || m == 6 || m == 9 || m == 11 then 30
    else 31
  }

  /**
   * Whether a fourteen-digit stamp is a date-time `strptime` accepts with
   * the format `%Y%m%d%H%M%S`: with fourteen digits every field must take
   * its two-digit (year: four-digit) form, and the date and time must
   * exist (years from 1, leap years as in the Gregorian calendar, seconds
   * up to 59).
   */
  predicate IsValidStamp(ts: string)
    requires |ts| == 14 && AllDigits(ts)
  {
    var year := Num(ts[0..4]);
    var month := Num(ts[4..6]);
    var day := Num(ts[6..8]);
    && year >= 1
    && 1 <= month <= 12
    && 1 <= day <= DaysInMonth(year, month)
    && Num(ts[8..10]) <= 23
    && Num(ts[10..12]) <= 59
    && Num(ts[12..14]) <= 59
  }

  const Epoch: string := "1970-01-01T00:00:00Z"

  /** The stamp's fields in ISO form: `YYYY-MM-DDTHH:MM:SSZ`. */
  function FormatStamp(ts: string): (r: string)
    requires |ts| == 14
    ensures IsIsoShape(r)
  {
    ts[0..4] + "-" + ts[4..6] + "-" + ts[6..8] + "T" + ts[8..10] + ":" + ts[10..12] + ":" + ts[12..14] + "Z"
  }

  /** The shape every timestamp the fetcher records has: `YYYY-MM-DDTHH:MM:SSZ`. */
  predicate IsIsoShape(r: string) {
    |r| == 20 && r[4] == '-' && r[7] == '-' && r[10] == 'T' && r[13] == ':' && r[16] == ':' && r[19] == 'Z'
  }

  /**
   * `derive_timestamp_from_version`: the pseudo-version's timestamp in ISO
   * form, or the epoch when the version is not a pseudo-version or its
   * stamp is not a real date-time.
   */
  function DeriveTimestampFromVersion(version: string): (r: string)
    ensures IsIsoShape(r)
  {
    EpochShape();
    match ParsePseudoVersionTag(version)
    case None => Epoch
    case Some((ts, _)) => if IsValidStamp(ts) then FormatStamp(ts) else Epoch
  }

  /** The fourteen digits of an ISO-shaped timestamp, separators dropped. */
  function StampOf(r: string): (ts: string)
    requires IsIsoShape(r)
    ensures |ts| == 14
  {
    r[0..4] + r[5..7] + r[8..10] + r[11..13] + r[14..16] + r[17..19]
  }

  /** Formatting only inserts separators: reading the fields back gives the stamp. */
  lemma StampOfFormat(ts: string)
    requires |ts| == 14
    ensures StampOf(FormatStamp(ts)) == ts
  {
    var r := FormatStamp(ts);
    assert r[0..4] == ts[0..4];
    assert r[5..7] == ts[4..6];
    assert r[8..10] == ts[6..8];
    assert r[11..13] == ts[8..10];
    assert r[14..16] == ts[10..12];
    assert r[17..19] == ts[12..14];
    assert ts == ts[0..4] + ts[4..6] + ts[6..8] + ts[8..10] + ts[10..12] + ts[12..14];
  }

  lemma EpochShape()
    ensures IsIsoShape(Epoch)
  {
  }

  /** The epoch's fields read back as the stamp `19700101000000`. */
  lemma EpochStamp()
    ensures StampOf(Epoch) == "19700101000000"
  {
    assert Epoch[0..4] == "1970";
    assert Epoch[5..7] == "01" && Epoch[8..10] == "01";
    assert Epoch[11..13] == "00" && Epoch[14..16] == "00" && Epoch[17..19] == "00";
  }

  /**
   * Read back field by field, the derived timestamp is the pseudo-version's
   * stamp exactly when that stamp is a real date-time, and the epoch
   * otherwise.
   */
  lemma DerivedTimestampStamp(version: string)
    ensures var p := ParsePseudoVersionTag(version);
      StampOf(DeriveTimestampFromVersion(version))
        == if p.Some? && IsValidStamp(p.value.0) then p.value.0 else "19700101000000"
  {
    var p := ParsePseudoVersionTag(version);
    if p.Some? && IsValidStamp(p.value.0) {
      StampOfFormat(p.value.0);
    } else {
      EpochStamp();
    }
  }
}
