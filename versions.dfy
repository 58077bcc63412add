/**
 * The version values the crawler compares (through `pkg_resources.parse_version`,
 * gather.py line 5) and prints back (`str(version)`, lines 202 and 204).
 *
 * The library is foreign code. This module models it on release versions only:
 * a version is a non-empty sequence of non-negative integer segments written in
 * decimal and separated by dots ("9.5.20" is [9, 5, 20]); two versions compare
 * segment by segment from the left, the shorter one padded with zeros; and
 * `str(version)` prints the segments back in decimal without leading zeros.
 * Any other text is treated as an invalid version.
 */
module Versions {
  import opened Wrappers
  import opened Strings

  /** The release segments of a version. */
  type Version = seq<nat>

  datatype Ordering = Less | Equal | Greater

  function Converse(o: Ordering): Ordering
  {
    match o
    case Less => Greater
    case Equal => Equal
    case Greater => Less
  }

  // ---------------------------------------------------------------------------
  // Parsing and printing

  predicate IsDigit(c: char) { '0' <= c <= '9' }

  /** A non-empty run of decimal digits. */
  predicate IsNumeral(p: string)
  {
    p != [] && forall i :: 0 <= i < |p| ==> IsDigit(p[i])
  }

  /** Python's `int(p)` on a run of decimal digits. */
  function DigitsValue(p: string): nat
    requires forall i :: 0 <= i < |p| ==> IsDigit(p[i])
    decreases |p|
  {
    if p == [] then 0
    else
      assert IsDigit(p[|p| - 1]);
      10 * DigitsValue(p[..|p| - 1]) + (p[|p| - 1] as int - '0' as int)
  }

  /** Python's `str(n)` on a non-negative integer. */
  function Numeral(n: nat): (p: string)
    ensures IsNumeral(p)
    decreases n
  {
    if n < 10 then [('0' as int + n) as char]
    else Numeral(n / 10) + [('0' as int + n % 10) as char]
  }

  /** `parse_version(text)` on release versions; `None` where the library raises. */
  function ParseVersion(text: string): Option<Version>
  {
    var pieces := Split(text, ".");
    if forall i :: 0 <= i < |pieces| ==> IsNumeral(pieces[i]) then
      Some(seq(|pieces|, i requires 0 <= i < |pieces| => DigitsValue(pieces[i])))
    else None
  }

  /** `str(version)`: the segments in decimal, joined by dots. */
  function Format(v: Version): string
  {
    Join(Numerals(v), ".")
  }

  function Numerals(v: Version): seq<string>
  {
    seq(|v|, i requires 0 <= i < |v| => Numeral(v[i]))
  }

  /** Text that prints back exactly as it reads: what `str(parse_version(text))` returns unchanged. */
  predicate IsCanonical(text: string)
  {
    ParseVersion(text).Some? && Format(ParseVersion(text).value) == text
  }

  /** Text made of digits and dots only, as printed versions are. */
  predicate VersionText(text: string)
  {
    forall c :: c in text ==> IsDigit(c) || c == '.'
  }

  // ---------------------------------------------------------------------------
  // Comparison

  /** Segment `i`, or zero past the end: the zero padding of the comparison. */
  function SegmentAt(v: Version, i: nat): nat
  {
    if i < |v| then v[i] else 0
  }

  function Drop1(v: Version): Version
  {
    if v == [] then [] else v[1..]
  }

  /** The first segment where the two versions differ, padded with zeros, decides. */
  function Compare(a: Version, b: Version): Ordering
    decreases |a| + |b|
  {
    if a == [] && b == [] then Equal
    else if SegmentAt(a, 0) < SegmentAt(b, 0) then Less
    else if SegmentAt(a, 0) > SegmentAt(b, 0) then Greater
    else Compare(Drop1(a), Drop1(b))
  }

  /** `a < b` on versions. */
  predicate Lt(a: Version, b: Version) { Compare(a, b) == Less }

  /** `a <= b` on versions. */
  predicate Le(a: Version, b: Version) { Compare(a, b) != Greater }

  /** Segment `k` is the first where `a` and `b` differ, and `a` is smaller there. */
  ghost predicate DecidesLess(a: Version, b: Version, k: nat)
  {
    SegmentAt(a, k) < SegmentAt(b, k) && forall i: nat :: i < k ==> SegmentAt(a, i) == SegmentAt(b, i)
  }

  // ---------------------------------------------------------------------------
  // Lemmas: parsing and printing

  /** `int(str(n)) == n`. */
  lemma {:induction false} NumeralValue(n: nat)
    ensures DigitsValue(Numeral(n)) == n
    decreases n
  {
    if n >= 10 {
      NumeralValue(n / 10);
      var p := Numeral(n);
      assert p[..|p| - 1] == Numeral(n / 10);
    }
  }

  /** A parsed version has at least one segment. */
  lemma ParsedNonEmpty(text: string)
    requires ParseVersion(text).Some?
    ensures |ParseVersion(text).value| >= 1
  {
    assert |ParseVersion(text).value| == |Split(text, ".")|;
  }

  /** Round trip: printing a version and parsing the text back gives the same version. */
  lemma FormatRoundTrip(v: Version)
    requires |v| >= 1
    ensures ParseVersion(Format(v)) == Some(v)
  {
    var ns := Numerals(v);
    forall i | 0 <= i < |ns| ensures '.' !in ns[i] {
      assert IsNumeral(ns[i]);
    }
    SplitJoin(ns, ".");
    forall i | 0 <= i < |ns| ensures IsNumeral(ns[i]) && DigitsValue(ns[i]) == v[i] {
      NumeralValue(v[i]);
    }
    var w: Version := seq(|ns|, i requires 0 <= i < |ns| => DigitsValue(ns[i]));
    assert w == v;
  }

  /** Printed versions consist of digits and dots only. */
  lemma FormatChars(v: Version)
    ensures VersionText(Format(v))
  {
    var ns := Numerals(v);
    JoinChars(ns, ".");
    forall c | c in Format(v) ensures IsDigit(c) || c == '.' {
      if c != '.' {
        var i :| 0 <= i < |ns| && c in ns[i];
        assert IsNumeral(ns[i]);
      }
    }
  }

  /** Canonical version text consists of digits and dots only, and starts with a digit. */
  lemma CanonicalChars(text: string)
    requires IsCanonical(text)
    ensures text != [] && IsDigit(text[0])
    ensures VersionText(text)
  {
    var v := ParseVersion(text).value;
    FormatChars(v);
    ParsedNonEmpty(text);
    assert Numerals(v)[0] == Numeral(v[0]);
    if |v| > 1 {
      assert Format(v) == Numerals(v)[0] + "." + Join(Numerals(v)[1..], ".");
    }
  }

  /** A canonical version followed by a dot and a numeral is the canonical text of the longer version. */
  lemma AppendSegment(text: string, d: nat)
    requires IsCanonical(text)
    ensures ParseVersion(text + "." + Numeral(d)) == Some(ParseVersion(text).value + [d])
    ensures IsCanonical(text + "." + Numeral(d))
  {
    var v := ParseVersion(text).value;
    ParsedNonEmpty(text);
    assert Numerals(v + [d]) == Numerals(v) + [Numeral(d)];
    JoinSnoc(Numerals(v), Numeral(d), ".");
    FormatRoundTrip(v + [d]);
  }

  // ---------------------------------------------------------------------------
  // Lemmas: comparison

  /** Comparing the other way round gives the converse: `a > b` exactly when `b < a`. */
  lemma {:induction false} CompareConverse(a: Version, b: Version)
    ensures Compare(b, a) == Converse(Compare(a, b))
    decreases |a| + |b|
  {
    if !(a == [] && b == []) && SegmentAt(a, 0) == SegmentAt(b, 0) {
      CompareConverse(Drop1(a), Drop1(b));
    }
  }

  /** Not smaller means at least as large: the order is total. */
  lemma NotLessIsAtLeast(a: Version, b: Version)
    requires !Lt(a, b)
    ensures Le(b, a)
  {
    CompareConverse(a, b);
  }

  lemma DropShifts(v: Version, i: nat)
    ensures SegmentAt(Drop1(v), i) == SegmentAt(v, i + 1)
  {
  }

  /** Equal means equal in every segment once both are padded with zeros. */
  lemma {:induction false} EqualIsPaddedEqual(a: Version, b: Version)
    ensures Compare(a, b) == Equal <==> forall i: nat :: SegmentAt(a, i) == SegmentAt(b, i)
    decreases |a| + |b|
  {
    if a == [] && b == [] {
    } else {
      EqualIsPaddedEqual(Drop1(a), Drop1(b));
      if Compare(a, b) == Equal {
        forall i: nat ensures SegmentAt(a, i) == SegmentAt(b, i) {
          if i > 0 {
            DropShifts(a, i - 1);
            DropShifts(b, i - 1);
          }
        }
      }
      if forall i: nat :: SegmentAt(a, i) == SegmentAt(b, i) {
        assert SegmentAt(a, 0) == SegmentAt(b, 0);
        forall i: nat ensures SegmentAt(Drop1(a), i) == SegmentAt(Drop1(b), i) {
          DropShifts(a, i);
          DropShifts(b, i);
        }
      }
    }
  }

  /** `a < b` exactly when, at the first padded segment where they differ, `a` has the smaller one. */
  lemma {:induction false} LessIsFirstDifference(a: Version, b: Version)
    ensures Lt(a, b) <==> exists k: nat :: DecidesLess(a, b, k)
    decreases |a| + |b|
  {
    if a == [] && b == [] {
    } else {
      LessIsFirstDifference(Drop1(a), Drop1(b));
      if Lt(a, b) {
        if SegmentAt(a, 0) < SegmentAt(b, 0) {
          assert DecidesLess(a, b, 0);
        } else {
          var k: nat :| DecidesLess(Drop1(a), Drop1(b), k);
          DropShifts(a, k);
          DropShifts(b, k);
          forall i: nat | i < k + 1 ensures SegmentAt(a, i) == SegmentAt(b, i) {
            if i > 0 {
              DropShifts(a, i - 1);
              DropShifts(b, i - 1);
            }
          }
          assert DecidesLess(a, b, k + 1);
        }
      }
      if exists k: nat :: DecidesLess(a, b, k) {
        var k: nat :| DecidesLess(a, b, k);
        if k > 0 {
          assert SegmentAt(a, 0) == SegmentAt(b, 0);
          DropShifts(a, k - 1);
          DropShifts(b, k - 1);
          forall i: nat | i < k - 1 ensures SegmentAt(Drop1(a), i) == SegmentAt(Drop1(b), i) {
            DropShifts(a, i);
            DropShifts(b, i);
          }
          assert DecidesLess(Drop1(a), Drop1(b), k - 1);
        }
      }
    }
  }

  /** The order is transitive, strictly so when either step is strict. */
  lemma {:induction false} CompareTransitive(a: Version, b: Version, c: Version)
    requires Le(a, b) && Le(b, c)
    ensures Le(a, c)
    ensures Lt(a, b) || Lt(b, c) ==> Lt(a, c)
    decreases |a| + |b| + |c|
  {
    if a == [] && b == [] && c == [] {
    } else if SegmentAt(a, 0) == SegmentAt(b, 0) == SegmentAt(c, 0) {
      assert Compare(a, b) == Compare(Drop1(a), Drop1(b));
      assert Compare(b, c) == Compare(Drop1(b), Drop1(c));
      assert Compare(a, c) == Compare(Drop1(a), Drop1(c));
      CompareTransitive(Drop1(a), Drop1(b), Drop1(c));
    }
  }

  /** Trailing zero segments do not matter: "1.2" and "1.2.0" are equal versions. */
  lemma ZeroPadding(v: Version, n: nat)
    ensures Compare(v, v + seq(n, _ => 0)) == Equal
  {
    var w := v + seq(n, _ => 0);
    forall i: nat ensures SegmentAt(v, i) == SegmentAt(w, i) {
      if |v| <= i < |w| {
        assert w[i] == 0;
      }
    }
    EqualIsPaddedEqual(v, w);
  }

  /** A version whose segments are all zero is below every version. */
  lemma ZeroIsLeast(z: Version, v: Version)
    requires forall i :: 0 <= i < |z| ==> z[i] == 0
    ensures Le(z, v)
  {
    if Compare(z, v) == Greater {
      CompareConverse(z, v);
      LessIsFirstDifference(v, z);
    }
  }

  /** A version with a non-zero segment is above the all-zero ones. */
  lemma NonZeroAboveZero(z: Version, v: Version, j: nat)
    requires forall i :: 0 <= i < |z| ==> z[i] == 0
    requires j < |v| && v[j] != 0
    ensures Lt(z, v)
  {
    ZeroIsLeast(z, v);
    EqualIsPaddedEqual(z, v);
    assert SegmentAt(z, j) != SegmentAt(v, j);
  }
}
