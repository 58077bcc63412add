/**
 * `parse_vulnerable_versions` (gather.py lines 153-205): turns the free-text
 * "Affected Versions" phrase of an advisory ("9.5.0 to 9.5.20", "4.2.0 and
 * below", "1.0 - 1.2; 2.0") into a list of `{low, high}` records.
 *
 * It works in two stages: a fixed cascade of literal replacements rewrites the
 * phrase into a comma-separated list of `version` or `version-version` pieces
 * (the normaliser), then each piece becomes one interval whose bounds are put
 * in order (the interval builder).
 */
module VersionRanges {
  import opened Wrappers
  import opened Strings
  import opened Versions

  /** An affected range, both bounds included. */
  datatype Interval = Interval(low: Version, high: Version)

  /** The record the crawler emits: both bounds printed back with `str(version)`. */
  datatype VersionRecord = VersionRecord(low: string, high: string)

  /** `parse_version` raised on this token. */
  datatype ParseError = InvalidVersion(token: string)

  /** `parse_version('0')`, the default low bound. */
  const Floor: Version := [0]

  /** `parse_version('99')`, the default high bound. */
  const Ceiling: Version := [99]

  // ---------------------------------------------------------------------------
  // The normaliser

  /** One `.replace(pattern, replacement)` of the cascade. */
  datatype Rule = Rule(pattern: string, replacement: string)

  /** Idioms for ranges and wildcards: "and below" becomes a range down to 0.0.0, "to" a dash. */
  const Idioms: seq<Rule> := [
    Rule("and below", " - 0.0.0"),
    Rule("below of", " - 0.0.0"),
    Rule("and all versions below", " - 0.0.0"),
    Rule("to", "-"),
    Rule("up", ""),
    Rule(".x", ".9")
  ]

  /** Connector words, no-break spaces and product names are deleted. */
  const Noise: seq<Rule> := [
    Rule("development releases of the", ""),
    Rule("branch", ""),
    Rule("\U{A0}", ""),
    Rule("versions from", ""),
    Rule("versions", ""),
    Rule("version", ""),
    Rule("all", ""),
    Rule("powermail", ""),
    Rule("yag", ""),
    Rule("pt_extbase", ""),
    Rule("elts", "")
  ]

  /** Colons and spaces are deleted; ";" and "and" both become the list separator ",". */
  const Separators: seq<Rule> := [
    Rule(":", ""),
    Rule(" ", ""),
    Rule(";", ","),
    Rule("and", ",")
  ]

  /** The replacements applied one after the other, each to the whole output of the one before. */
  function ApplyRules(s: string, rules: seq<Rule>): string
    decreases |rules|
  {
    if rules == [] then s
    else ApplyRules(Replace(s, rules[0].pattern, rules[0].replacement), rules[1..])
  }

  /** The whole cascade, in the order the source applies it, after lower-casing the phrase. */
  function Normalise(phrase: string): string
  {
    ApplyRules(ApplyRules(ApplyRules(Lower(phrase), Idioms), Noise), Separators)
  }

  /** The sanity check on the normalised text: it does not start with a digit, "-" or ",". */
  predicate UnexpectedStart(normalised: string)
  {
    normalised == [] || !(IsDigit(normalised[0]) || normalised[0] == '-' || normalised[0] == ',')
  }

  // ---------------------------------------------------------------------------
  // The interval builder

  /** The two bounds, the smaller one first. */
  function Ordered(a: Version, b: Version): (iv: Interval)
    ensures Le(iv.low, iv.high)
    ensures multiset{iv.low, iv.high} == multiset{a, b}
    ensures Lt(a, b) ==> iv == Interval(a, b)
    ensures !Lt(a, b) ==> iv == Interval(b, a)
  {
    if Lt(a, b) then Interval(a, b)
    else
      NotLessIsAtLeast(a, b);
      Interval(b, a)
  }

  /** One piece of the normalised text: a lone version, `low-high`, or anything with more dashes. */
  function SegmentInterval(segment: string): (r: Result<Interval, ParseError>)
    ensures r.Success? ==> Le(r.value.low, r.value.high)
    ensures r.Success? ==> |r.value.low| >= 1 && |r.value.high| >= 1
  {
    var parts := Split(segment, "-");
    if |parts| == 1 then
      match ParseVersion(parts[0])
      case None => Failure(InvalidVersion(parts[0]))
      case Some(high) => ParsedNonEmpty(parts[0]); Success(Ordered(Floor, high))
    else if |parts| == 2 then
      var lowText, highText := Strip(parts[0]), Strip(parts[1]);
      match ParseVersion(lowText)
      case None => Failure(InvalidVersion(lowText))
      case Some(low) =>
        match ParseVersion(highText)
        case None => Failure(InvalidVersion(highText))
        case Some(high) =>
          ParsedNonEmpty(lowText);
          ParsedNonEmpty(highText);
          Success(Ordered(low, high))
    else
      Success(Ordered(Floor, Ceiling))
  }

  /** The outcome of every piece, in order. */
  function PieceResults(segments: seq<string>): seq<Result<Interval, ParseError>>
  {
    seq(|segments|, k requires 0 <= k < |segments| => SegmentInterval(segments[k]))
  }

  /** Outcomes taken in turn; the first failure aborts the whole list. */
  function Collect<T, E>(rs: seq<Result<T, E>>): Result<seq<T>, E>
    decreases |rs|
  {
    if rs == [] then Success([])
    else
      match Collect(rs[..|rs| - 1])
      case Failure(e) => Failure(e)
      case Success(init) =>
        match rs[|rs| - 1]
        case Failure(e) => Failure(e)
        case Success(last) => Success(init + [last])
  }

  /** Every piece in turn; the first invalid version aborts the whole list. */
  function Intervals(segments: seq<string>): Result<seq<Interval>, ParseError>
  {
    Collect(PieceResults(segments))
  }

  /** The outcomes gather into a list exactly when every one of them succeeds. */
  lemma {:induction false} CollectSucceeds<T, E>(rs: seq<Result<T, E>>)
    ensures Collect(rs).Success? <==> forall k :: 0 <= k < |rs| ==> rs[k].Success?
    decreases |rs|
  {
    if rs != [] {
      var n := |rs| - 1;
      CollectSucceeds(rs[..n]);
      assert forall k :: 0 <= k < n ==> rs[..n][k] == rs[k];
    }
  }

  /** A gathered list holds the value of every outcome, in order. */
  lemma {:induction false} CollectValues<T, E>(rs: seq<Result<T, E>>)
    requires Collect(rs).Success?
    ensures |Collect(rs).value| == |rs|
    ensures forall k :: 0 <= k < |rs| ==> rs[k] == Success(Collect(rs).value[k])
    decreases |rs|
  {
    if rs != [] {
      var n := |rs| - 1;
      var init := rs[..n];
      CollectValues(init);
      forall k | 0 <= k < |rs| ensures rs[k] == Success(Collect(rs).value[k]) {
        if k < n {
          assert init[k] == rs[k];
        }
      }
    }
  }

  /** A list that fails has the error of the first outcome that fails. */
  lemma {:induction false} CollectFirstFailure<T, E>(rs: seq<Result<T, E>>)
    requires Collect(rs).Failure?
    ensures exists k :: 0 <= k < |rs| && rs[k] == Failure(Collect(rs).error)
                        && forall j :: 0 <= j < k ==> rs[j].Success?
    decreases |rs|
  {
    var n := |rs| - 1;
    var init := rs[..n];
    if Collect(init).Failure? {
      CollectFirstFailure(init);
      var k :| 0 <= k < n && init[k] == Failure(Collect(init).error)
               && forall j :: 0 <= j < k ==> init[j].Success?;
      assert forall j :: 0 <= j <= k ==> init[j] == rs[j];
    } else {
      CollectSucceeds(init);
      assert forall j :: 0 <= j < n ==> init[j] == rs[j];
    }
  }

  /** Once an outcome fails after outcomes that all succeed, the outcomes after it do not matter. */
  lemma {:induction false} CollectFailsAt<T, E>(rs: seq<Result<T, E>>, i: nat)
    requires i < |rs| && Collect(rs[..i]).Success? && rs[i].Failure?
    ensures Collect(rs) == Failure(rs[i].error)
    decreases |rs|
  {
    var init := rs[..|rs| - 1];
    if i < |init| {
      assert init[..i] == rs[..i];
      CollectFailsAt(init, i);
    }
  }

  /** The intervals of a raw phrase. */
  function VulnerableVersions(phrase: string): Result<seq<Interval>, ParseError>
  {
    Intervals(Split(Normalise(phrase), ","))
  }

  /** `{'low': str(low), 'high': str(high)}`. */
  function AsRecord(iv: Interval): VersionRecord
  {
    VersionRecord(Format(iv.low), Format(iv.high))
  }

  /** One interval printed as a record; an error stays an error. */
  function RecordOf(r: Result<Interval, ParseError>): Result<VersionRecord, ParseError>
  {
    match r
    case Failure(e) => Failure(e)
    case Success(iv) => Success(AsRecord(iv))
  }

  /** Every interval printed as a record; an error stays an error. */
  function RecordsOf(r: Result<seq<Interval>, ParseError>): Result<seq<VersionRecord>, ParseError>
  {
    match r
    case Failure(e) => Failure(e)
    case Success(ivs) => Success(seq(|ivs|, i requires 0 <= i < |ivs| => AsRecord(ivs[i])))
  }

  /** The records of a raw phrase, as the crawler stores them. */
  function VulnerableRecords(phrase: string): Result<seq<VersionRecord>, ParseError>
  {
    RecordsOf(VulnerableVersions(phrase))
  }

  /** Reading a record's two strings back as versions gives a low bound not above the high one. */
  predicate RecordOrdered(r: VersionRecord)
  {
    ParseVersion(r.low).Some? && ParseVersion(r.high).Some?
    && Le(ParseVersion(r.low).value, ParseVersion(r.high).value)
  }

  /** Reading the printed bounds back gives the same versions, so a record keeps its interval's order. */
  lemma AsRecordOrdered(r: Result<Interval, ParseError>)
    requires r.Success? ==> Le(r.value.low, r.value.high) && |r.value.low| >= 1 && |r.value.high| >= 1
    ensures RecordOf(r).Success? ==> RecordOrdered(RecordOf(r).value)
  {
    if r.Success? {
      FormatRoundTrip(r.value.low);
      FormatRoundTrip(r.value.high);
    }
  }

  /**
   * The records of the pieces: they exist exactly when every piece parses,
   * one per piece in order, each the printed interval of its piece and
   * ordered when read back; otherwise the error is that of the first piece
   * that fails.
   */
  lemma RecordsPieces(segments: seq<string>)
    ensures RecordsOf(Intervals(segments)).Success? <==> forall k :: 0 <= k < |segments| ==> SegmentInterval(segments[k]).Success?
    ensures RecordsOf(Intervals(segments)).Success? ==> |RecordsOf(Intervals(segments)).value| == |segments|
    ensures RecordsOf(Intervals(segments)).Success? ==>
              forall k :: 0 <= k < |segments| ==> RecordOf(SegmentInterval(segments[k])) == Success(RecordsOf(Intervals(segments)).value[k])
    ensures RecordsOf(Intervals(segments)).Success? ==>
              forall k :: 0 <= k < |segments| ==> RecordOrdered(RecordsOf(Intervals(segments)).value[k])
    ensures RecordsOf(Intervals(segments)).Failure? ==>
              exists k :: 0 <= k < |segments| && SegmentInterval(segments[k]) == Failure(RecordsOf(Intervals(segments)).error)
                          && forall j :: 0 <= j < k ==> SegmentInterval(segments[j]).Success?
  {
    var rs := PieceResults(segments);
    assert forall k :: 0 <= k < |segments| ==> rs[k] == SegmentInterval(segments[k]);
    CollectSucceeds(rs);
    if Intervals(segments).Failure? {
      CollectFirstFailure(rs);
    } else {
      CollectValues(rs);
      forall k | 0 <= k < |segments| ensures RecordOrdered(RecordsOf(Intervals(segments)).value[k]) {
        AsRecordOrdered(SegmentInterval(segments[k]));
      }
    }
  }

  /** Printing one more interval adds one more record. */
  lemma RecordsOfSnoc(ivs: seq<Interval>, iv: Interval, records: seq<VersionRecord>)
    requires RecordsOf(Success(ivs)) == Success(records)
    ensures RecordsOf(Success(ivs + [iv])) == Success(records + [AsRecord(iv)])
  {
    var r := RecordsOf(Success(ivs + [iv])).value;
    assert |r| == |records| + 1;
    forall k | 0 <= k < |r| ensures r[k] == (records + [AsRecord(iv)])[k] {
      if k < |ivs| {
        assert (ivs + [iv])[k] == ivs[k];
        assert records[k] == AsRecord(ivs[k]);
      }
    }
    assert r == records + [AsRecord(iv)];
  }

  /** The loop of lines 188-204 over the pieces of the normalised text: one record per piece, in order. */
  method BuildRecords(segments: seq<string>) returns (result: Result<seq<VersionRecord>, ParseError>)
    ensures result == RecordsOf(Intervals(segments))
  {
    ghost var rs := PieceResults(segments);
    var records: seq<VersionRecord> := [];
    var i := 0;
    assert RecordsOf(Collect(rs[..i])).value == [];
    while i < |segments|
      invariant 0 <= i <= |segments|
      invariant RecordsOf(Collect(rs[..i])) == Success(records)
    {
      assert rs[i] == SegmentInterval(segments[i]);
      // The bounds default to 0 and 99; a lone token is the high bound, two
      // tokens are the low and the high bound, more leave the defaults.
      var low, high := Floor, Ceiling;
      var parts := Split(segments[i], "-");
      if |parts| == 1 {
        var parsed := ParseVersion(parts[0]);
        if parsed.None? {
          CollectFailsAt(rs, i);
          return Failure(InvalidVersion(parts[0]));
        }
        high := parsed.value;
      } else if |parts| == 2 {
        var lowText := Strip(parts[0]);
        var parsedLow := ParseVersion(lowText);
        if parsedLow.None? {
          CollectFailsAt(rs, i);
          return Failure(InvalidVersion(lowText));
        }
        var highText := Strip(parts[1]);
        var parsedHigh := ParseVersion(highText);
        if parsedHigh.None? {
          CollectFailsAt(rs, i);
          return Failure(InvalidVersion(highText));
        }
        low, high := parsedLow.value, parsedHigh.value;
      }
      ghost var iv := Ordered(low, high);
      assert rs[i] == Success(iv);
      assert rs[..i + 1][..i] == rs[..i];
      RecordsOfSnoc(Collect(rs[..i]).value, iv, records);
      // The smaller bound is stored first.
      if Lt(low, high) {
        records := records + [VersionRecord(Format(low), Format(high))];
      } else {
        records := records + [VersionRecord(Format(high), Format(low))];
      }
      i := i + 1;
    }
    assert rs[..i] == rs;
    result := Success(records);
  }

  /**
   * `parse_vulnerable_versions(version_in)`: the normaliser, then one record
   * per piece of its output. Also returns whether the normalised text fails
   * the sanity check at line 185, which the source only reports on the console.
   */
  method ParseVulnerableVersions(versionIn: string) returns (result: Result<seq<VersionRecord>, ParseError>, unexpected: bool)
    ensures result == VulnerableRecords(versionIn)
    ensures unexpected == UnexpectedStart(Normalise(versionIn))
  {
    var affected := Normalise(versionIn);
    unexpected := UnexpectedStart(affected);
    result := BuildRecords(Split(affected, ","));
  }
}
