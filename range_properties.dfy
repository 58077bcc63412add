/**
 * What `parse_vulnerable_versions` (gather.py lines 153-205) promises about its
 * output, proved about the model in VersionRanges: the normalised text is
 * free of the noise characters, every piece is read by the number of dashes
 * in it, and the common phrases give the ranges they describe.
 */
module RangeProperties {
  import opened Wrappers
  import opened Strings
  import opened Versions
  import opened VersionRanges

  // ---------------------------------------------------------------------------
  // The normaliser

  predicate NoUpper(s: string)
  {
    forall c :: c in s ==> !IsUpper(c)
  }

  /** Every character of the cascade's output comes from its input or from one of the replacements. */
  lemma {:induction false} RulesChars(s: string, rules: seq<Rule>)
    ensures forall c :: c in ApplyRules(s, rules) ==> c in s || exists i :: 0 <= i < |rules| && c in rules[i].replacement
    decreases |rules|
  {
    if rules != [] {
      var t := Replace(s, rules[0].pattern, rules[0].replacement);
      ReplaceChars(s, rules[0].pattern, rules[0].replacement);
      RulesChars(t, rules[1..]);
      forall c | c in ApplyRules(s, rules) && c !in t && c !in rules[0].replacement
        ensures exists i :: 1 <= i < |rules| && c in rules[i].replacement
      {
        var j :| 0 <= j < |rules[1..]| && c in rules[1..][j].replacement;
        assert rules[j + 1] == rules[1..][j];
      }
    }
  }

  /** A character that is neither in the text nor in any replacement is not in the output. */
  lemma RulesKeepOut(s: string, rules: seq<Rule>, c: char)
    requires c !in s
    requires forall i :: 0 <= i < |rules| ==> c !in rules[i].replacement
    ensures c !in ApplyRules(s, rules)
  {
    RulesChars(s, rules);
  }

  /** Lower-case text stays lower case when every replacement is lower case. */
  lemma RulesKeepLower(s: string, rules: seq<Rule>)
    requires NoUpper(s)
    requires forall i :: 0 <= i < |rules| ==> NoUpper(rules[i].replacement)
    ensures NoUpper(ApplyRules(s, rules))
  {
    RulesChars(s, rules);
  }

  /**
   * A rule that deletes or rewrites every occurrence of one character leaves
   * none of it, when no replacement from that rule on brings it back.
   */
  lemma {:induction false} RuleRemoves(s: string, rules: seq<Rule>, k: nat, c: char)
    requires k < |rules| && rules[k].pattern == [c]
    requires forall i :: k <= i < |rules| ==> c !in rules[i].replacement
    ensures c !in ApplyRules(s, rules)
    decreases k
  {
    if k == 0 {
      var t := Replace(s, [c], rules[0].replacement);
      ReplaceRemoves(s, c, rules[0].replacement);
      RulesKeepOut(t, rules[1..], c);
    } else {
      RuleRemoves(Replace(s, rules[0].pattern, rules[0].replacement), rules[1..], k - 1, c);
    }
  }

  /** The idioms' replacements are lower case. */
  lemma IdiomsReplacements()
    ensures forall i :: 0 <= i < |Idioms| ==> NoUpper(Idioms[i].replacement)
  {
  }

  /** The noise words are all deleted, and the third one is the no-break space. */
  lemma NoiseReplacements()
    ensures forall i :: 0 <= i < |Noise| ==> Noise[i].replacement == []
    ensures Noise[2].pattern == "\U{A0}"
  {
  }

  /** The separator rules delete or bring in a comma, and their first three patterns are ":", " " and ";". */
  lemma SeparatorsReplacements()
    ensures forall i :: 0 <= i < |Separators| ==> Separators[i].replacement in {"", ","}
    ensures Separators[0].pattern == ":" && Separators[1].pattern == " " && Separators[2].pattern == ";"
  {
  }

  /** Rewriting the idioms keeps lower-case text lower case. */
  lemma IdiomsClean(s: string)
    requires NoUpper(s)
    ensures NoUpper(ApplyRules(s, Idioms))
  {
    IdiomsReplacements();
    RulesKeepLower(s, Idioms);
  }

  /** Deleting the noise words keeps lower-case text lower case and removes every no-break space. */
  lemma NoiseClean(s: string)
    requires NoUpper(s)
    ensures NoUpper(ApplyRules(s, Noise)) && '\U{A0}' !in ApplyRules(s, Noise)
  {
    NoiseReplacements();
    RulesKeepLower(s, Noise);
    RuleRemoves(s, Noise, 2, '\U{A0}');
  }

  /** The separator rules remove every colon, space and semicolon, and bring in no no-break space or upper case. */
  lemma SeparatorsClean(s: string)
    requires NoUpper(s) && '\U{A0}' !in s
    ensures NoUpper(ApplyRules(s, Separators))
    ensures ' ' !in ApplyRules(s, Separators) && ':' !in ApplyRules(s, Separators)
    ensures ';' !in ApplyRules(s, Separators) && '\U{A0}' !in ApplyRules(s, Separators)
  {
    SeparatorsReplacements();
    RulesKeepLower(s, Separators);
    RulesKeepOut(s, Separators, '\U{A0}');
    RuleRemoves(s, Separators, 0, ':');
    RuleRemoves(s, Separators, 1, ' ');
    RuleRemoves(s, Separators, 2, ';');
  }

  /**
   * The normalised text is lower case and holds no space, colon, semicolon
   * or no-break space, whatever the phrase.
   */
  lemma NormaliseClean(phrase: string)
    ensures NoUpper(Normalise(phrase))
    ensures ' ' !in Normalise(phrase) && ':' !in Normalise(phrase)
    ensures ';' !in Normalise(phrase) && '\U{A0}' !in Normalise(phrase)
  {
    CaseMapped(phrase);
    var rewritten := ApplyRules(Lower(phrase), Idioms);
    IdiomsClean(Lower(phrase));
    NoiseClean(rewritten);
    SeparatorsClean(ApplyRules(rewritten, Noise));
  }

  /** Rules each of whose patterns has a character the text lacks leave it alone. */
  lemma {:induction false} Inert(s: string, rules: seq<Rule>, witnesses: string)
    requires |witnesses| == |rules|
    requires forall i :: 0 <= i < |rules| ==> witnesses[i] in rules[i].pattern
    requires forall c :: c in witnesses ==> c !in s
    ensures ApplyRules(s, rules) == s
    decreases |rules|
  {
    if rules != [] {
      ReplaceAbsent(s, rules[0].pattern, rules[0].replacement, witnesses[0]);
      assert forall c :: c in witnesses[1..] ==> c in witnesses;
      Inert(s, rules[1..], witnesses[1..]);
    }
  }

  /**
   * Rule `k` is the only one that acts: each rule before it has a character
   * the text lacks, and each rule after it has a character its output lacks.
   */
  lemma {:induction false} OnlyRuleActs(p: string, m: string, rules: seq<Rule>, k: nat, witnesses: string)
    requires k < |rules| && |witnesses| == |rules|
    requires forall i :: 0 <= i < |rules| ==> witnesses[i] in rules[i].pattern
    requires forall i :: 0 <= i < k ==> witnesses[i] !in p
    requires Replace(p, rules[k].pattern, rules[k].replacement) == m
    requires forall i :: k < i < |rules| ==> witnesses[i] !in m
    ensures ApplyRules(p, rules) == m
    decreases k
  {
    if k == 0 {
      forall c | c in witnesses[1..] ensures c !in m {
        var j :| 0 <= j < |witnesses[1..]| && witnesses[1..][j] == c;
        assert witnesses[j + 1] == c;
      }
      Inert(m, rules[1..], witnesses[1..]);
    } else {
      ReplaceAbsent(p, rules[0].pattern, rules[0].replacement, witnesses[0]);
      OnlyRuleActs(p, m, rules[1..], k - 1, witnesses[1..]);
    }
  }

  /** One character of each idiom, in order. */
  lemma IdiomsWitnessed()
    ensures forall i :: 0 <= i < |Idioms| ==> "abatux"[i] in Idioms[i].pattern
    ensures |Idioms| == 6 && Idioms[0] == Rule("and below", " - 0.0.0") && Idioms[3] == Rule("to", "-")
  {
  }

  /** One character of each noise word, in order. */
  lemma NoiseWitnessed()
    ensures forall i :: 0 <= i < |Noise| ==> "db\U{A0}vvvapype"[i] in Noise[i].pattern
  {
  }

  /** Digits, dots, dashes, commas and spaces: text that none of the idioms or noise words touch. */
  predicate IdiomFree(s: string)
  {
    forall c :: c in s ==> IsDigit(c) || c == '.' || c == '-' || c == ',' || c == ' '
  }

  /** Idiom-free text is left alone by the idioms. */
  lemma IdiomsInert(s: string)
    requires IdiomFree(s)
    ensures ApplyRules(s, Idioms) == s
  {
    IdiomsWitnessed();
    Inert(s, Idioms, "abatux");
  }

  /** Idiom-free text is left alone by the noise words. */
  lemma NoiseInert(s: string)
    requires IdiomFree(s)
    ensures ApplyRules(s, Noise) == s
  {
    NoiseWitnessed();
    Inert(s, Noise, "db\U{A0}vvvapype");
  }

  /** On idiom-free text the separator rules only delete the spaces. */
  lemma OnlySpacesRemoved(s: string)
    requires IdiomFree(s)
    ensures ApplyRules(s, Separators) == Replace(s, " ", "")
  {
    var r := Replace(s, " ", "");
    ReplaceAbsent(s, ":", "", ':');
    KeepsOut(s, " ", "", ';');
    KeepsOut(s, " ", "", 'a');
    ReplaceAbsent(r, ";", ",", ';');
    ReplaceAbsent(r, "and", ",", 'a');
    assert Separators[1..][1..][1..][1..] == [];
  }

  /** On idiom-free text the normaliser only deletes the spaces. */
  lemma IdiomFreeNormal(s: string)
    requires IdiomFree(s)
    ensures Normalise(s) == Replace(s, " ", "")
  {
    LowerIdentity(s);
    IdiomsInert(s);
    NoiseInert(s);
    OnlySpacesRemoved(s);
  }

  // ---------------------------------------------------------------------------
  // One piece, by the number of dashes in it

  /**
   * A piece without a dash is a lone version: it becomes the high bound over
   * the default low bound 0 (the two trade places when the version is itself
   * zero), and a token that is not a version is the error.
   */
  lemma LoneVersion(segment: string)
    requires '-' !in segment
    ensures ParseVersion(segment).None? ==> SegmentInterval(segment) == Failure(InvalidVersion(segment))
    ensures ParseVersion(segment).Some? && Lt(Floor, ParseVersion(segment).value) ==>
              SegmentInterval(segment) == Success(Interval(Floor, ParseVersion(segment).value))
    ensures ParseVersion(segment).Some? && !Lt(Floor, ParseVersion(segment).value) ==>
              Compare(ParseVersion(segment).value, Floor) == Equal
              && SegmentInterval(segment) == Success(Interval(ParseVersion(segment).value, Floor))
  {
    SplitNone(segment, "-");
    if ParseVersion(segment).Some? {
      var v := ParseVersion(segment).value;
      ZeroIsLeast(Floor, v);
      CompareConverse(Floor, v);
    }
  }

  /**
   * A piece with one dash is `low-high`, each side stripped of whitespace; the
   * two bounds are swapped when the left one is not below the right one, and
   * the first side that is not a version is the error.
   */
  lemma OneDash(left: string, right: string)
    requires '-' !in left && '-' !in right
    ensures ParseVersion(Strip(left)).None? ==>
              SegmentInterval(left + "-" + right) == Failure(InvalidVersion(Strip(left)))
    ensures ParseVersion(Strip(left)).Some? && ParseVersion(Strip(right)).None? ==>
              SegmentInterval(left + "-" + right) == Failure(InvalidVersion(Strip(right)))
    ensures ParseVersion(Strip(left)).Some? && ParseVersion(Strip(right)).Some? ==>
              var lo, hi := ParseVersion(Strip(left)).value, ParseVersion(Strip(right)).value;
              SegmentInterval(left + "-" + right) == Success(if Lt(lo, hi) then Interval(lo, hi) else Interval(hi, lo))
  {
    assert Join([left, right], "-") == left + "-" + right;
    SplitJoin([left, right], "-");
  }

  /** A piece with two or more dashes is not understood and covers 0 to 99. */
  lemma ManyDashes(segment: string)
    requires multiset(segment)['-'] >= 2
    ensures SegmentInterval(segment) == Success(Interval(Floor, Ceiling))
  {
    SplitCount(segment, '-');
    assert Lt(Floor, Ceiling);
  }

  /** As stored, a piece with two or more dashes is the record from "0" to "99". */
  lemma ManyDashesRecord(segment: string)
    requires multiset(segment)['-'] >= 2
    ensures RecordOf(SegmentInterval(segment)) == Success(VersionRecord("0", "99"))
  {
    ManyDashes(segment);
    ZeroTexts();
  }

  // ---------------------------------------------------------------------------
  // Whole phrases

  /** The texts of the versions the idioms and the defaults stand for. */
  lemma ZeroTexts()
    ensures Format(Floor) == "0" && ParseVersion("0") == Some(Floor)
    ensures Format(Ceiling) == "99" && ParseVersion("99") == Some(Ceiling)
    ensures Format([0, 0, 0]) == "0.0.0"
    ensures ParseVersion("0.0.0") == Some([0, 0, 0])
    ensures IsCanonical("0.0.0")
  {
    assert Numeral(99) == "99";
    FormatRoundTrip(Floor);
    FormatRoundTrip(Ceiling);
    assert Numerals([0, 0, 0]) == ["0", "0", "0"];
    FormatRoundTrip([0, 0, 0]);
  }

  /** Text that starts with a digit passes the sanity check. */
  lemma DashStart(x: string, z: string)
    requires x != [] && IsDigit(x[0])
    ensures !UnexpectedStart(x + "-" + z)
  {
  }

  /** Version text is its own `strip()`. */
  lemma VersionUnstripped(x: string)
    requires VersionText(x)
    ensures Strip(x) == x
  {
    StripIdentity(x);
  }

  /** The outcomes of a single piece. */
  lemma OnePiece(n: string)
    ensures PieceResults([n]) == [SegmentInterval(n)]
  {
  }

  /** A single outcome gives one record, or its error. */
  lemma OneOutcome(r: Result<Interval, ParseError>)
    ensures r.Failure? ==> RecordsOf(Collect([r])) == Failure(r.error)
    ensures r.Success? ==> RecordsOf(Collect([r])) == Success([AsRecord(r.value)])
  {
    assert [r][..0] == [];
    assert Collect([r][..0]) == Success([]);
    if r.Success? {
      assert Collect([r]) == Success([] + [r.value]);
      assert [] + [r.value] == [r.value];
      var records := RecordsOf(Success([r.value])).value;
      assert |records| == 1 && records[0] == AsRecord(r.value);
      assert records == [AsRecord(r.value)];
    }
  }

  /** Normalised text without a comma is one piece: one record, or that piece's error. */
  lemma SinglePiece(n: string)
    requires ',' !in n
    ensures SegmentInterval(n).Failure? ==> RecordsOf(Intervals(Split(n, ","))) == Failure(SegmentInterval(n).error)
    ensures SegmentInterval(n).Success? ==> RecordsOf(Intervals(Split(n, ","))) == Success([AsRecord(SegmentInterval(n).value)])
  {
    SplitNone(n, ",");
    OnePiece(n);
    OneOutcome(SegmentInterval(n));
  }

  /** A version with a non-zero digit in its text is above the default low bound 0. */
  lemma AboveFloor(x: string, i: nat)
    requires IsCanonical(x)
    requires i < |x| && '1' <= x[i] <= '9'
    ensures Lt(Floor, ParseVersion(x).value)
  {
    var v := ParseVersion(x).value;
    var ns := Numerals(v);
    JoinChars(ns, ".");
    assert x[i] in Join(ns, ".");
    var k :| 0 <= k < |ns| && x[i] in ns[k];
    assert ns[k] == Numeral(v[k]);
    NonZeroAboveZero(Floor, v, k);
  }

  /**
   * A phrase that is one version `x` (with a digit other than 0) passes the
   * sanity check and affects everything from 0 up to `x`.
   */
  lemma SingleVersion(x: string, i: nat)
    requires IsCanonical(x)
    requires i < |x| && '1' <= x[i] <= '9'
    ensures !UnexpectedStart(Normalise(x))
    ensures VulnerableRecords(x) == Success([VersionRecord("0", x)])
  {
    CanonicalChars(x);
    SingleNormal(x);
    PhraseRecords(x, x);
    SingleRecords(x, i);
  }

  /** Version text is already normal. */
  lemma SingleNormal(x: string)
    requires VersionText(x)
    ensures Normalise(x) == x
  {
    assert IdiomFree(x) && ' ' !in x;
    IdiomFreeNormal(x);
    ReplaceAbsent(x, " ", "", ' ');
  }

  /** The one piece `x` of a canonical version with a non-zero digit is the range from 0 up to `x`. */
  lemma SingleRecords(x: string, i: nat)
    requires IsCanonical(x)
    requires i < |x| && '1' <= x[i] <= '9'
    ensures RecordsOf(Intervals(Split(x, ","))) == Success([VersionRecord("0", x)])
  {
    CanonicalChars(x);
    assert ',' !in x && '-' !in x;
    SinglePiece(x);
    LoneVersion(x);
    AboveFloor(x, i);
    ZeroTexts();
  }

  /** The one occurrence of a pattern is replaced when the text before it cannot start one and the text after it holds none. */
  lemma ReplaceOnce(u: string, v: string, pat: string, rep: string, c: char)
    requires pat != [] && pat[0] !in u && c in pat && c !in v
    ensures Replace(u + pat + v, pat, rep) == u + rep + v
  {
    ReplaceAround(u, v, pat, rep);
    ReplaceAbsent(v, pat, rep, c);
  }

  /** What rewriting "to" between two idiom-free texts needs to know about their characters. */
  lemma ToChars(u: string, v: string)
    requires IdiomFree(u) && IdiomFree(v)
    ensures forall i :: 0 <= i < 3 ==> "abatux"[i] !in u + "to" + v
    ensures forall i :: 3 < i < |Idioms| ==> "abatux"[i] !in u + "-" + v
    ensures "to"[0] !in u && 't' !in v
  {
  }

  /** Between two idiom-free texts, the idioms only turn "to" into a dash. */
  lemma ToRewritten(u: string, v: string)
    requires IdiomFree(u) && IdiomFree(v)
    ensures ApplyRules(u + "to" + v, Idioms) == u + "-" + v
  {
    ToChars(u, v);
    ReplaceOnce(u, v, "to", "-", 't');
    IdiomsWitnessed();
    OnlyRuleActs(u + "to" + v, u + "-" + v, Idioms, 3, "abatux");
  }

  /** What rewriting "and below" after an idiom-free text needs to know about its characters. */
  lemma BelowChars(u: string)
    requires IdiomFree(u)
    ensures forall i :: 0 < i < |Idioms| ==> "abatux"[i] !in u + " - 0.0.0"
    ensures "and below"[0] !in u
  {
  }

  /** The one "and below" at the end of a text without an "a" becomes a dash before 0.0.0. */
  lemma BelowReplaced(u: string)
    requires "and below"[0] !in u
    ensures Replace(u + "and below", "and below", " - 0.0.0") == u + " - 0.0.0"
  {
    ReplaceOnce(u, [], "and below", " - 0.0.0", 'a');
    assert u + "and below" + [] == u + "and below";
    assert u + " - 0.0.0" + [] == u + " - 0.0.0";
  }

  /** After an idiom-free text, the idioms only turn "and below" into a dash before 0.0.0. */
  lemma BelowRewritten(u: string)
    requires IdiomFree(u)
    ensures ApplyRules(u + "and below", Idioms) == u + " - 0.0.0"
  {
    BelowChars(u);
    BelowReplaced(u);
    IdiomsWitnessed();
    OnlyRuleActs(u + "and below", u + " - 0.0.0", Idioms, 0, "abatux");
  }

  /** Deleting the spaces around a dash deletes them on either side of it. */
  lemma SpacesAroundDash(a: string, b: string)
    requires ' ' !in b
    ensures Replace(a + " - " + b, " ", "") == Replace(a, " ", "") + "-" + b
  {
    ReplaceCharConcat(a + " - ", b, ' ', "");
    ReplaceCharConcat(a, " - ", ' ', "");
    assert Replace(" - ", " ", "") == "-";
    ReplaceAbsent(b, " ", "", ' ');
  }

  /** Deleting the spaces of a text followed by one space. */
  lemma TrailingSpaceGone(a: string)
    requires ' ' !in a
    ensures Replace(a + " ", " ", "") == a
  {
    ReplaceCharConcat(a, " ", ' ', "");
    ReplaceAbsent(a, " ", "", ' ');
    ReplaceAt([], " ", "");
  }

  /** The texts "x to y" goes through, and the facts about their characters the normaliser needs. */
  lemma ToTexts(x: string, y: string)
    requires VersionText(x) && VersionText(y)
    ensures NoUpper(x + " to " + y)
    ensures x + " " + "to" + (" " + y) == x + " to " + y
    ensures x + " " + "-" + (" " + y) == x + " - " + y
    ensures IdiomFree(x + " ") && IdiomFree(" " + y) && IdiomFree(x + " - " + y)
    ensures ' ' !in x && ' ' !in y
  {
  }

  /** "x to y" normalises to "x-y". */
  lemma ToNormal(x: string, y: string)
    requires VersionText(x) && VersionText(y)
    ensures Normalise(x + " to " + y) == x + "-" + y
  {
    ToTexts(x, y);
    LowerIdentity(x + " to " + y);
    ToRewritten(x + " ", " " + y);
    NoiseInert(x + " - " + y);
    OnlySpacesRemoved(x + " - " + y);
    SpacesAroundDash(x, y);
    ReplaceAbsent(x, " ", "", ' ');
  }

  /** A phrase whose normalised text is known gives that text's records. */
  lemma PhraseRecords(phrase: string, n: string)
    requires Normalise(phrase) == n
    ensures VulnerableRecords(phrase) == RecordsOf(Intervals(Split(n, ",")))
  {
  }

  /** Text that is empty or does not start with a digit is not a version: `parse_version` raises. */
  lemma NotVersion(t: string)
    requires t == [] || !IsDigit(t[0])
    ensures ParseVersion(t).None?
  {
    SplitFirst(t, ".");
    assert !IsNumeral(Split(t, ".")[0]);
  }

  /**
   * The partner of the sanity check: a phrase it flags cannot be parsed when
   * its first piece has no dash, because that piece does not start with a
   * digit; `parse_version` raises on it, and that error ends the call.
   */
  lemma FlaggedFails(phrase: string)
    requires UnexpectedStart(Normalise(phrase))
    requires '-' !in Split(Normalise(phrase), ",")[0]
    ensures VulnerableRecords(phrase) == Failure(InvalidVersion(Split(Normalise(phrase), ",")[0]))
  {
    var n := Normalise(phrase);
    var segments := Split(n, ",");
    SplitFirst(n, ",");
    NotVersion(segments[0]);
    LoneVersion(segments[0]);
    var rs := PieceResults(segments);
    assert rs[0] == SegmentInterval(segments[0]);
    assert rs[..0] == [];
    CollectFailsAt(rs, 0);
    PhraseRecords(phrase, n);
  }

  /**
   * For every phrase that parses: one record per ","-piece of the normalised
   * text (one more than its commas), each with its low bound not above its
   * high bound when read back as versions.
   */
  lemma RecordsShape(phrase: string)
    ensures VulnerableRecords(phrase).Success? ==>
              |VulnerableRecords(phrase).value| == |Split(Normalise(phrase), ",")| == multiset(Normalise(phrase))[','] + 1
    ensures VulnerableRecords(phrase).Success? ==>
              forall k :: 0 <= k < |VulnerableRecords(phrase).value| ==> RecordOrdered(VulnerableRecords(phrase).value[k])
  {
    PhraseRecords(phrase, Normalise(phrase));
    RecordsPieces(Split(Normalise(phrase), ","));
    SplitCount(Normalise(phrase), ',');
  }

  /** The one piece "x-y" of two canonical versions gives their range, the smaller one first. */
  lemma DashRecords(x: string, y: string)
    requires IsCanonical(x) && IsCanonical(y)
    ensures var vx, vy := ParseVersion(x).value, ParseVersion(y).value;
            RecordsOf(Intervals(Split(x + "-" + y, ",")))
              == Success([if Lt(vx, vy) then VersionRecord(x, y) else VersionRecord(y, x)])
  {
    CanonicalChars(x);
    CanonicalChars(y);
    SinglePiece(x + "-" + y);
    OneDash(x, y);
    VersionUnstripped(x);
    VersionUnstripped(y);
  }

  /**
   * "x to y" passes the sanity check and is the one range between the two
   * versions, the smaller one first whichever way round they are written.
   */
  lemma ToRange(x: string, y: string)
    requires IsCanonical(x) && IsCanonical(y)
    ensures !UnexpectedStart(Normalise(x + " to " + y))
    ensures var vx, vy := ParseVersion(x).value, ParseVersion(y).value;
            VulnerableRecords(x + " to " + y)
              == Success([if Lt(vx, vy) then VersionRecord(x, y) else VersionRecord(y, x)])
  {
    CanonicalChars(x);
    CanonicalChars(y);
    ToNormal(x, y);
    DashStart(x, y);
    PhraseRecords(x + " to " + y, x + "-" + y);
    DashRecords(x, y);
  }

  /** The texts "x and below" goes through, and the facts about their characters the normaliser needs. */
  lemma BelowTexts(x: string)
    requires VersionText(x)
    ensures NoUpper(x + " and below")
    ensures x + " " + "and below" == x + " and below"
    ensures x + " " + " - 0.0.0" == x + " " + " - " + "0.0.0"
    ensures IdiomFree(x + " ") && IdiomFree(x + " " + " - 0.0.0")
    ensures ' ' !in x && ' ' !in "0.0.0"
  {
  }

  /** "x and below" normalises to "x-0.0.0". */
  lemma AndBelowNormal(x: string)
    requires VersionText(x)
    ensures Normalise(x + " and below") == x + "-" + "0.0.0"
  {
    BelowTexts(x);
    LowerIdentity(x + " and below");
    BelowRewritten(x + " ");
    NoiseInert(x + " " + " - 0.0.0");
    OnlySpacesRemoved(x + " " + " - 0.0.0");
    SpacesAroundDash(x + " ", "0.0.0");
    TrailingSpaceGone(x);
  }

  /** No version is below an all-zero one. */
  lemma NothingBelowZeros(v: Version, z: Version)
    requires forall i :: 0 <= i < |z| ==> z[i] == 0
    ensures !Lt(v, z)
  {
    ZeroIsLeast(z, v);
    CompareConverse(z, v);
  }

  /** The one piece "x-z" of a canonical version and an all-zero one is the range from `z` up to `x`. */
  lemma DashDownToZero(x: string, z: string)
    requires IsCanonical(x) && IsCanonical(z)
    requires forall i :: 0 <= i < |ParseVersion(z).value| ==> ParseVersion(z).value[i] == 0
    ensures RecordsOf(Intervals(Split(x + "-" + z, ","))) == Success([VersionRecord(z, x)])
  {
    DashRecords(x, z);
    NothingBelowZeros(ParseVersion(x).value, ParseVersion(z).value);
  }

  /** "x-0.0.0" of a canonical version is the one range from 0.0.0 up to `x`. */
  lemma BelowRecords(x: string)
    requires IsCanonical(x)
    ensures RecordsOf(Intervals(Split(x + "-" + "0.0.0", ","))) == Success([VersionRecord("0.0.0", x)])
  {
    ZeroTexts();
    DashDownToZero(x, "0.0.0");
  }

  /**
   * "x and below" passes the sanity check and is exactly the one range from
   * 0.0.0 up to `x`.
   */
  lemma AndBelow(x: string)
    requires IsCanonical(x)
    ensures !UnexpectedStart(Normalise(x + " and below"))
    ensures VulnerableRecords(x + " and below") == Success([VersionRecord("0.0.0", x)])
  {
    CanonicalChars(x);
    AndBelowNormal(x);
    DashStart(x, "0.0.0");
    PhraseRecords(x + " and below", x + "-" + "0.0.0");
    BelowRecords(x);
  }

  // ---------------------------------------------------------------------------
  // Wildcards

  /** The one ".x" at the end of a text without an "x" becomes ".9". */
  lemma {:induction false} WildcardReplaced(x: string)
    requires 'x' !in x
    ensures Replace(x + ".x", ".x", ".9") == x + ".9"
    decreases |x|
  {
    var s := x + ".x";
    if x == [] {
      ReplaceAt([], ".x", ".9");
      assert s == ".x" + [];
    } else {
      assert !(".x" <= s) by {
        if |x| >= 2 { assert s[1] == x[1]; } else { assert s[1] == '.'; }
      }
      assert s[1..] == x[1..] + ".x";
      assert Replace(s, ".x", ".9") == [x[0]] + Replace(x[1..] + ".x", ".x", ".9");
      WildcardReplaced(x[1..]);
      assert x + ".9" == [x[0]] + (x[1..] + ".9");
    }
  }

  /** What rewriting a trailing ".x" after version text needs to know about its characters. */
  lemma WildcardChars(x: string)
    requires VersionText(x)
    ensures forall c :: c in x + ".x" ==> !IsUpper(c)
    ensures forall i :: 0 <= i < 5 ==> "abatux"[i] !in x + ".x"
    ensures 'x' !in x && IdiomFree(x + ".9") && ' ' !in x + ".9"
  {
  }

  /** After version text, the idioms only turn a trailing ".x" into ".9". */
  lemma WildcardRewritten(x: string)
    requires VersionText(x)
    ensures ApplyRules(x + ".x", Idioms) == x + ".9"
  {
    WildcardChars(x);
    WildcardReplaced(x);
    IdiomsWitnessed();
    OnlyRuleActs(x + ".x", x + ".9", Idioms, 5, "abatux");
  }

  /** "x.x" of version text normalises to "x.9": the wildcard stands for the segment 9. */
  lemma Wildcard(x: string)
    requires VersionText(x)
    ensures Normalise(x + ".x") == x + ".9"
  {
    WildcardChars(x);
    LowerIdentity(x + ".x");
    WildcardRewritten(x);
    NoiseInert(x + ".9");
    OnlySpacesRemoved(x + ".9");
    ReplaceAbsent(x + ".9", " ", "", ' ');
  }

  /** A canonical version followed by ".9" is canonical, starts with a digit and ends in 9. */
  lemma WildcardCanonical(x: string)
    requires IsCanonical(x)
    ensures VersionText(x) && IsCanonical(x + ".9")
    ensures IsDigit((x + ".9")[0]) && (x + ".9")[|x| + 1] == '9'
  {
    CanonicalChars(x);
    AppendSegment(x, 9);
    assert x + "." + Numeral(9) == x + ".9";
  }

  /** "x.x" of a canonical version passes the sanity check and is the one range from 0 up to "x.9". */
  lemma WildcardRecords(x: string)
    requires IsCanonical(x)
    ensures !UnexpectedStart(Normalise(x + ".x"))
    ensures VulnerableRecords(x + ".x") == Success([VersionRecord("0", x + ".9")])
  {
    WildcardCanonical(x);
    Wildcard(x);
    PhraseRecords(x + ".x", x + ".9");
    SingleRecords(x + ".9", |x| + 1);
  }

  // ---------------------------------------------------------------------------
  // Lists of ranges

  /** Two outcomes in turn: both values, or the first error. */
  lemma CollectTwo<T, E>(r1: Result<T, E>, r2: Result<T, E>)
    ensures r1.Failure? ==> Collect([r1, r2]) == Failure(r1.error)
    ensures r1.Success? && r2.Failure? ==> Collect([r1, r2]) == Failure(r2.error)
    ensures r1.Success? && r2.Success? ==> Collect([r1, r2]) == Success([r1.value, r2.value])
  {
    assert [r1, r2][..1] == [r1];
    assert [r1][..0] == [];
    assert Collect([r1][..0]) == Success([]);
    if r1.Success? {
      assert Collect([r1]) == Success([] + [r1.value]);
      assert [] + [r1.value] == [r1.value];
      if r2.Success? {
        assert [r1.value] + [r2.value] == [r1.value, r2.value];
      }
    }
  }

  /** Two outcomes give their two records, or the first error. */
  lemma RecordsOfTwo(r1: Result<Interval, ParseError>, r2: Result<Interval, ParseError>)
    ensures RecordsOf(Collect([r1, r2])).Success? <==> r1.Success? && r2.Success?
    ensures r1.Success? && r2.Success? ==> RecordsOf(Collect([r1, r2])) == Success([AsRecord(r1.value), AsRecord(r2.value)])
    ensures r1.Failure? ==> RecordsOf(Collect([r1, r2])) == Failure(r1.error)
  {
    CollectTwo(r1, r2);
    if r1.Success? && r2.Success? {
      var records := RecordsOf(Success([r1.value, r2.value])).value;
      assert |records| == 2;
      assert records == [AsRecord(r1.value), AsRecord(r2.value)];
    }
  }

  /** Normalised text of two comma-free pieces gives their two records, or the error of the first that fails. */
  lemma TwoSegments(p: string, q: string)
    requires ',' !in p && ',' !in q
    ensures RecordsOf(Intervals(Split(p + "," + q, ","))).Success? <==> SegmentInterval(p).Success? && SegmentInterval(q).Success?
    ensures RecordsOf(Intervals(Split(p + "," + q, ","))).Success? ==>
              RecordsOf(Intervals(Split(p + "," + q, ","))).value == [AsRecord(SegmentInterval(p).value), AsRecord(SegmentInterval(q).value)]
    ensures SegmentInterval(p).Failure? ==> RecordsOf(Intervals(Split(p + "," + q, ","))) == Failure(SegmentInterval(p).error)
  {
    assert Join([p, q], ",") == p + "," + q;
    SplitJoin([p, q], ",");
    assert PieceResults([p, q]) == [SegmentInterval(p), SegmentInterval(q)];
    RecordsOfTwo(SegmentInterval(p), SegmentInterval(q));
  }

  /** A phrase that normalises to two comma-free pieces gives their two records, or the error of the first that fails. */
  lemma TwoPieces(phrase: string, p: string, q: string)
    requires Normalise(phrase) == p + "," + q && ',' !in p && ',' !in q
    ensures VulnerableRecords(phrase).Success? <==> SegmentInterval(p).Success? && SegmentInterval(q).Success?
    ensures VulnerableRecords(phrase).Success? ==>
              VulnerableRecords(phrase).value == [AsRecord(SegmentInterval(p).value), AsRecord(SegmentInterval(q).value)]
    ensures SegmentInterval(p).Failure? ==> VulnerableRecords(phrase) == Failure(SegmentInterval(p).error)
  {
    PhraseRecords(phrase, p + "," + q);
    TwoSegments(p, q);
  }

  /** Two comma-free pieces whose records are known give those two records. */
  lemma TwoKnownSegments(p: string, q: string, first: VersionRecord, second: VersionRecord)
    requires ',' !in p && ',' !in q
    requires RecordOf(SegmentInterval(p)) == Success(first) && RecordOf(SegmentInterval(q)) == Success(second)
    ensures RecordsOf(Intervals(Split(p + "," + q, ","))) == Success([first, second])
  {
    TwoSegments(p, q);
  }

  /** The spaces of two idiom-free texts are deleted, and neither gains a semicolon, an "a" or a comma. */
  lemma SpacesGone(a: string, b: string)
    requires IdiomFree(a) && IdiomFree(b)
    ensures IdiomFree(Replace(a, " ", "")) && IdiomFree(Replace(b, " ", ""))
    ensures ' ' !in Replace(a, " ", "") && ' ' !in Replace(b, " ", "")
  {
    ReplaceChars(a, " ", "");
    ReplaceChars(b, " ", "");
    ReplaceRemoves(a, ' ', "");
    ReplaceRemoves(b, ' ', "");
  }

  /** The separator rules one after the other. */
  lemma SeparatorsInTurn(s: string)
    ensures ApplyRules(s, Separators) == Replace(Replace(Replace(Replace(s, ":", ""), " ", ""), ";", ","), "and", ",")
  {
    assert Separators[1..][1..][1..][1..] == [];
  }

  /** Idiom-free text with semicolons: a list before its separators are unified. */
  predicate SemicolonText(s: string)
  {
    forall c :: c in s ==> IsDigit(c) || c == '.' || c == '-' || c == ',' || c == ' ' || c == ';'
  }

  /** Idiom-free text with the letters of "and": a list before its separators are unified. */
  predicate AndText(s: string)
  {
    forall c :: c in s ==> IsDigit(c) || c == '.' || c == '-' || c == ',' || c == ' ' || c == 'a' || c == 'n' || c == 'd'
  }

  /** "a; b" and "a and b" of idiom-free texts are such lists. */
  lemma ListTexts(a: string, b: string)
    requires IdiomFree(a) && IdiomFree(b)
    ensures SemicolonText(a + "; " + b) && AndText(a + " and " + b)
    ensures ':' !in a + "; " + b && ':' !in a + " and " + b
  {
  }

  /** Which separator characters two idiom-free pieces, and the texts joining them, lack. */
  lemma PieceTexts(u: string, v: string)
    requires IdiomFree(u) && IdiomFree(v)
    ensures ';' !in u && ';' !in v && 'a' !in u && 'a' !in v
    ensures 'a' !in u + "," + v && ';' !in u + "and" + v
  {
  }

  /** Such a list is lower case and holds none of the witness characters of the idioms and noise words. */
  lemma SemicolonChars(s: string)
    requires SemicolonText(s)
    ensures forall c :: c in s ==> !IsUpper(c)
    ensures forall c :: c in "abatux" ==> c !in s
    ensures forall c :: c in "db\U{A0}vvvapype" ==> c !in s
  {
  }

  /** Such a list passes the idioms and the noise words unchanged. */
  lemma SemicolonInert(s: string)
    requires SemicolonText(s)
    ensures ApplyRules(ApplyRules(Lower(s), Idioms), Noise) == s
  {
    SemicolonChars(s);
    LowerIdentity(s);
    IdiomsWitnessed();
    Inert(s, Idioms, "abatux");
    NoiseWitnessed();
    Inert(s, Noise, "db\U{A0}vvvapype");
  }

  /** One character of each idiom and of each noise word that "and" lacks, in order. */
  lemma AndWitnessed()
    ensures forall i :: 0 <= i < |Idioms| ==> "bbbtux"[i] in Idioms[i].pattern
    ensures forall i :: 0 <= i < |Noise| ==> "vb\U{A0}vvvlpype"[i] in Noise[i].pattern
  {
  }

  /** Such a list is lower case and holds none of those witness characters. */
  lemma AndChars(s: string)
    requires AndText(s)
    ensures forall c :: c in s ==> !IsUpper(c)
    ensures forall c :: c in "bbbtux" ==> c !in s
    ensures forall c :: c in "vb\U{A0}vvvlpype" ==> c !in s
  {
  }

  /** Such a list passes the idioms and the noise words unchanged. */
  lemma AndInert(s: string)
    requires AndText(s)
    ensures ApplyRules(ApplyRules(Lower(s), Idioms), Noise) == s
  {
    AndChars(s);
    LowerIdentity(s);
    AndWitnessed();
    Inert(s, Idioms, "bbbtux");
    Inert(s, Noise, "vb\U{A0}vvvlpype");
  }

  /** Deleting the spaces of "a" + w + "b" deletes those of a, of w and of b. */
  lemma SpacesAround(a: string, w: string, b: string)
    ensures Replace(a + w + b, " ", "") == Replace(a, " ", "") + Replace(w, " ", "") + Replace(b, " ", "")
  {
    ReplaceCharConcat(a + w, b, ' ', "");
    ReplaceCharConcat(a, w, ' ', "");
  }

  /** The one semicolon between two texts without one becomes a comma. */
  lemma SemicolonToComma(u: string, v: string)
    requires ';' !in u && ';' !in v
    ensures Replace(u + ";" + v, ";", ",") == u + "," + v
  {
    ReplaceCharConcat(u + ";", v, ';', ",");
    ReplaceCharConcat(u, ";", ';', ",");
    assert Replace(";", ";", ",") == ",";
    ReplaceAbsent(u, ";", ",", ';');
    ReplaceAbsent(v, ";", ",", ';');
  }

  /** Text the idioms and noise words leave alone normalises through the separator rules, one after the other. */
  lemma NormalFromSeparators(s: string, t: string)
    requires ApplyRules(ApplyRules(Lower(s), Idioms), Noise) == s
    requires Replace(Replace(Replace(Replace(s, ":", ""), " ", ""), ";", ","), "and", ",") == t
    ensures Normalise(s) == t
  {
    SeparatorsInTurn(s);
  }

  /** Deleting the spaces of "a; b" leaves the spaceless texts around the semicolon. */
  lemma SemicolonSpaces(a: string, b: string)
    ensures Replace(a + "; " + b, " ", "") == Replace(a, " ", "") + ";" + Replace(b, " ", "")
  {
    SpacesAround(a, "; ", b);
    assert Replace("; ", " ", "") == ";";
  }

  /** Deleting the spaces of " and " leaves "and". */
  lemma AndUnspaced()
    ensures Replace(" and ", " ", "") == "and"
  {
    ReplaceAt("and ", " ", "");
    assert "and " == "and" + " ";
    TrailingSpaceGone("and");
  }

  /** Deleting the spaces of "a and b" leaves the spaceless texts around "and". */
  lemma AndSpaces(a: string, b: string)
    ensures Replace(a + " and " + b, " ", "") == Replace(a, " ", "") + "and" + Replace(b, " ", "")
  {
    SpacesAround(a, " and ", b);
    AndUnspaced();
  }

  /** A semicolon separates two ranges: "a; b" of idiom-free texts normalises to their spaceless texts around a comma. */
  lemma SemicolonList(a: string, b: string)
    requires IdiomFree(a) && IdiomFree(b)
    ensures Normalise(a + "; " + b) == Replace(a, " ", "") + "," + Replace(b, " ", "")
  {
    var s := a + "; " + b;
    var u, v := Replace(a, " ", ""), Replace(b, " ", "");
    ListTexts(a, b);
    SemicolonInert(s);
    ReplaceAbsent(s, ":", "", ':');
    SemicolonSpaces(a, b);
    SpacesGone(a, b);
    PieceTexts(u, v);
    SemicolonToComma(u, v);
    ReplaceAbsent(u + "," + v, "and", ",", 'a');
    NormalFromSeparators(s, u + "," + v);
  }

  /** "and" separates two ranges: "a and b" of idiom-free texts normalises to their spaceless texts around a comma. */
  lemma AndList(a: string, b: string)
    requires IdiomFree(a) && IdiomFree(b)
    ensures Normalise(a + " and " + b) == Replace(a, " ", "") + "," + Replace(b, " ", "")
  {
    var s := a + " and " + b;
    var u, v := Replace(a, " ", ""), Replace(b, " ", "");
    ListTexts(a, b);
    AndInert(s);
    ReplaceAbsent(s, ":", "", ':');
    AndSpaces(a, b);
    SpacesGone(a, b);
    PieceTexts(u, v);
    ReplaceAbsent(u + "and" + v, ";", ",", ';');
    ReplaceOnce(u, v, "and", ",", 'a');
    NormalFromSeparators(s, u + "," + v);
  }

  /** The piece "x-y" of two canonical versions is their interval, printed back as x and y, the smaller first. */
  lemma DashPiece(x: string, y: string)
    requires IsCanonical(x) && IsCanonical(y)
    ensures var vx, vy := ParseVersion(x).value, ParseVersion(y).value;
            RecordOf(SegmentInterval(x + "-" + y)) == Success(if Lt(vx, vy) then VersionRecord(x, y) else VersionRecord(y, x))
  {
    CanonicalChars(x);
    CanonicalChars(y);
    OneDash(x, y);
    VersionUnstripped(x);
    VersionUnstripped(y);
  }

  /** The piece `z` of a canonical version with a non-zero digit is the interval from 0 up to `z`, printed back. */
  lemma LonePiece(z: string, i: nat)
    requires IsCanonical(z) && i < |z| && '1' <= z[i] <= '9'
    ensures RecordOf(SegmentInterval(z)) == Success(VersionRecord("0", z))
  {
    CanonicalChars(z);
    LoneVersion(z);
    AboveFloor(z, i);
    ZeroTexts();
  }

  /** "x - y; z" of version texts normalises to "x-y,z". */
  lemma RangeThenVersionNormal(x: string, y: string, z: string)
    requires VersionText(x) && VersionText(y) && VersionText(z)
    ensures Normalise(x + " - " + y + "; " + z) == x + "-" + y + "," + z
  {
    assert IdiomFree(x + " - " + y) && IdiomFree(z) && ' ' !in x && ' ' !in y && ' ' !in z;
    SemicolonList(x + " - " + y, z);
    SpacesAroundDash(x, y);
    ReplaceAbsent(x, " ", "", ' ');
    ReplaceAbsent(z, " ", "", ' ');
  }

  /** The pieces "x-y" and "z" of canonical versions, z with a non-zero digit, give the two ranges. */
  lemma RangeThenVersionRecords(x: string, y: string, z: string, i: nat)
    requires IsCanonical(x) && IsCanonical(y) && IsCanonical(z)
    requires i < |z| && '1' <= z[i] <= '9'
    ensures var vx, vy := ParseVersion(x).value, ParseVersion(y).value;
            RecordsOf(Intervals(Split(x + "-" + y + "," + z, ",")))
              == Success([if Lt(vx, vy) then VersionRecord(x, y) else VersionRecord(y, x), VersionRecord("0", z)])
  {
    CommaFree(x, y, z);
    DashPiece(x, y);
    LonePiece(z, i);
    var vx, vy := ParseVersion(x).value, ParseVersion(y).value;
    TwoKnownSegments(x + "-" + y, z, if Lt(vx, vy) then VersionRecord(x, y) else VersionRecord(y, x), VersionRecord("0", z));
  }

  /** Canonical versions hold no comma, and neither does a range between two of them. */
  lemma CommaFree(x: string, y: string, z: string)
    requires IsCanonical(x) && IsCanonical(y) && IsCanonical(z)
    ensures ',' !in x + "-" + y && ',' !in z
  {
    CanonicalChars(x);
    CanonicalChars(y);
    CanonicalChars(z);
  }

  /**
   * "x - y; z" of canonical versions, z with a non-zero digit, is the range
   * between x and y (the smaller first) followed by the range from 0 up to z.
   */
  lemma RangeThenVersion(x: string, y: string, z: string, i: nat)
    requires IsCanonical(x) && IsCanonical(y) && IsCanonical(z)
    requires i < |z| && '1' <= z[i] <= '9'
    ensures var vx, vy := ParseVersion(x).value, ParseVersion(y).value;
            VulnerableRecords(x + " - " + y + "; " + z)
              == Success([if Lt(vx, vy) then VersionRecord(x, y) else VersionRecord(y, x), VersionRecord("0", z)])
  {
    CanonicalChars(x);
    CanonicalChars(y);
    CanonicalChars(z);
    RangeThenVersionNormal(x, y, z);
    PhraseRecords(x + " - " + y + "; " + z, x + "-" + y + "," + z);
    RangeThenVersionRecords(x, y, z, i);
  }

  /** "x and z" of version texts normalises to "x,z". */
  lemma TwoVersionsNormal(x: string, z: string)
    requires VersionText(x) && VersionText(z)
    ensures Normalise(x + " and " + z) == x + "," + z
  {
    assert IdiomFree(x) && IdiomFree(z) && ' ' !in x && ' ' !in z;
    AndList(x, z);
    ReplaceAbsent(x, " ", "", ' ');
    ReplaceAbsent(z, " ", "", ' ');
  }

  /** "x and z" of canonical versions with non-zero digits is the range from 0 up to x, then from 0 up to z. */
  lemma TwoVersions(x: string, i: nat, z: string, j: nat)
    requires IsCanonical(x) && i < |x| && '1' <= x[i] <= '9'
    requires IsCanonical(z) && j < |z| && '1' <= z[j] <= '9'
    ensures VulnerableRecords(x + " and " + z) == Success([VersionRecord("0", x), VersionRecord("0", z)])
  {
    CanonicalChars(x);
    CanonicalChars(z);
    TwoVersionsNormal(x, z);
    PhraseRecords(x + " and " + z, x + "," + z);
    LonePiece(x, i);
    LonePiece(z, j);
    TwoKnownSegments(x, z, VersionRecord("0", x), VersionRecord("0", z));
  }
}
