# TYPO3 advisory crawler: the affected-versions parser

The crawler reads TYPO3 security advisories and stores, for each one, its
metadata and the ranges of affected versions. Those ranges come from a
free-text "Affected Versions" field such as "9.5.0 to 9.5.20",
"4.2.0 and below" or "1.0 - 1.2; 2.0". `parse_vulnerable_versions` turns that
text into a list of `{low, high}` records in two stages:

1. A fixed cascade of literal replacements, the *normaliser*. It lower-cases
   the text and rewrites idioms ("and below" becomes a range down to 0.0.0,
   "to" becomes a dash, ".x" becomes ".9"). It deletes connector words,
   product names, colons, spaces and no-break spaces. Finally it turns ";"
   and "and" into the list separator ",".
2. A loop over the ","-pieces of the normalised text, the *interval builder*.
   - A piece without a dash is the high bound over the default low bound 0.
   - A piece with one dash is `low-high`, each side stripped.
   - A piece with more dashes keeps the defaults 0 and 99.
   - The bounds are parsed as versions and stored smaller first, printed back
     as strings.

Two pieces around the parser are modelled as well:

- the link filter `extract_advisory_links`, which appends to the caller's list
  every button link under `/security/advisory/`;
- the end of `parse_advisory`, which adds the advisory's URL and title and
  replaces the "Affected Versions" text by the parsed ranges, or by an empty
  list when the key is missing.

Modules:

- `Wrappers`: `Option` and `Result`.
- `Strings`: Python's `str.replace`, `split`, `join`, `lower`, `upper` and
  `strip` as functions, with their algebra: replace as split-then-join,
  split/join round trips, and which characters a replacement can produce.
- `Versions`: the version values the crawler gets from `parse_version`,
  printed with `str()`, and their order, proved to be a total preorder.
- `VersionRanges`: the normaliser, the interval builder as a specification
  (`SegmentInterval`, `Intervals`), and the source's loop as the method
  `BuildRecords`, proved against that specification.
- `RangeProperties`: what the parser promises, proved about the model.
- `Advisories`: the link filter as a class `LinkList` and a method, and the
  completion of an advisory's metadata.

Every invalid version makes `parse_version` raise. That exception leaves
`parse_vulnerable_versions` and `parse_advisory`, which catch only
`KeyError`, so the model returns it as `Failure(InvalidVersion(token))`.

## Model

| member | source | states |
|---|---|---|
| VersionRanges.Normalise | gather.py:163-184 | The phrase lower-cased, then the twenty-one replacements in the source's order. Its promises are `NormaliseClean`, `IdiomFreeNormal`, `ToNormal`, `AndBelowNormal`, `Wildcard`, `SemicolonList` and `AndList`. |
| VersionRanges.ApplyRules | gather.py:164-184 | Each replacement applied to the whole output of the one before. Its promises are `RulesChars`, `RuleRemoves`, `Inert` and `OnlyRuleActs`. |
| VersionRanges.UnexpectedStart | gather.py:185 | The sanity check: the normalised text is empty or does not start with a digit, "-" or ",". Its partner is `FlaggedFails`. |
| VersionRanges.Intervals | gather.py:188-204 | The pieces' intervals in turn, the first invalid version aborting the list. Its promises are `RecordsPieces` and the `Collect` lemmas. |
| VersionRanges.VulnerableRecords | gather.py:153-205 | The records of a raw phrase. Its promises are `RecordsShape`, `FlaggedFails` and the whole-phrase lemmas. |
| VersionRanges.AsRecord | gather.py:202-204 | An interval printed with `str()` as `{low, high}`. Its promise is `AsRecordOrdered`. |
| Strings.Replace | gather.py:164-184 | `str.replace`. Its promises are `ReplaceIsSplitJoin`, `ReplaceChars` and `ReplaceRemoves`. |
| Strings.Split | gather.py:188-196 | `str.split` with an explicit separator: at least one piece. Its promises are `SplitJoin`, `JoinSplit`, `SplitCount` and `SplitPiecesFree`. |
| Strings.Strip | gather.py:195-196 | `str.strip()`. Its promises are `StripOnlySpace` and `StripEnds`. |
| Strings.StripOnlySpace | gather.py:195-196 | `strip()` keeps a slice of its input and removes only whitespace, before and after that slice. |
| Strings.Lower | gather.py:163 | `str.lower()` on ASCII letters. Its promise is `CaseMapped`, used by `NormaliseClean`. |
| Strings.Upper | gather.py:133 | `str.upper()` on ASCII letters. Its promise is `CaseMapped`, used by `Title`. |
| Versions.ParseVersion | gather.py:189-196 | `parse_version` on release versions, `None` where it raises. Its promises are `FormatRoundTrip` and `ParsedNonEmpty`. |
| Versions.Format | gather.py:202-204 | `str()` of a version. Its promises are `FormatRoundTrip` and `CanonicalChars`. |
| Versions.Compare | gather.py:199 | The `<` of versions. Its promises are `CompareConverse`, `CompareTransitive`, `EqualIsPaddedEqual` and `LessIsFirstDifference`. |
| VersionRanges.ParseVulnerableVersions | gather.py:153-205 | The records are those of the phrase lower-cased and run through the cascade of replacements, then cut at "," with one record per piece, in order. The flag is the sanity check on the normalised text. |
| VersionRanges.BuildRecords | gather.py:188-204 | The source's loop over the pieces computes exactly the printed intervals of the pieces, or the error of the first piece with an invalid version. |
| VersionRanges.SegmentInterval | gather.py:189-204 | A successful piece gives an interval whose low bound is not above its high bound, and both bounds are non-empty versions. |
| VersionRanges.Ordered | gather.py:199-204 | The two bounds come out with the smaller first and are the same two versions. When the first is below the second they stay in place; otherwise they are swapped, also for equal versions written differently such as 1.0 and 1.0.0. |
| VersionRanges.CollectSucceeds | gather.py:188-204 | The pieces' outcomes gather into a list exactly when every piece succeeds. |
| VersionRanges.CollectValues | gather.py:188-204 | A gathered list has one value per piece, and value k is the outcome of piece k. |
| VersionRanges.CollectFirstFailure | gather.py:188-204 | A list that fails carries the error of one of the pieces. |
| VersionRanges.CollectFailsAt | gather.py:191-196 | Once a piece fails after pieces that all succeed, that piece's error is the result and the later pieces do not matter. |
| VersionRanges.AsRecordOrdered | gather.py:202-204 | Printing an ordered interval with `str()` gives texts that parse back to the same two versions, so the record stays ordered. |
| VersionRanges.RecordsPieces | gather.py:188-205 | The records exist exactly when every piece parses. There is one record per piece, record k is piece k's interval printed, and every record reads back ordered. On failure, the error is that of some piece. |
| VersionRanges.RecordsOfSnoc | gather.py:202-204 | Appending one more interval appends its printed record. |
| RangeProperties.RecordsShape | gather.py:153-205 | For every phrase that parses, there is one record per ","-piece of the normalised text, one more than its commas, and every record reads back ordered. |
| RangeProperties.FlaggedFails | gather.py:185-193 | A phrase the sanity check flags, whose first piece has no dash, fails with that piece as the invalid version, since it does not start with a digit. This covers the empty phrase. |
| RangeProperties.NotVersion | gather.py:189-193 | Text that is empty or does not start with a digit is not a version. |
| RangeProperties.RulesChars | gather.py:164-184 | Every character of a run of replacements comes from its input or from one of the replacement texts. |
| RangeProperties.RulesKeepOut | gather.py:164-184 | A character in neither the input nor any replacement text is not in the output. |
| RangeProperties.RulesKeepLower | gather.py:164-184 | Lower-case input stays lower case when every replacement text is lower case. |
| RangeProperties.RuleRemoves | gather.py:172 | Once a one-character pattern is deleted, no later replacement that does not bring it back leaves any of it. |
| RangeProperties.Inert | gather.py:164-180 | Replacements whose patterns each hold a character absent from the text leave the text unchanged. |
| RangeProperties.OnlyRuleActs | gather.py:164-184 | When every replacement but one finds none of its pattern, the run of replacements is that one replacement. |
| RangeProperties.IdiomsClean | gather.py:164-169 | The idiom rewriting keeps lower-case text lower case. |
| RangeProperties.NoiseClean | gather.py:170-180 | The noise-word deletions remove every no-break space and bring in no upper-case letter. |
| RangeProperties.SeparatorsClean | gather.py:181-184 | The last four replacements remove every colon, space and semicolon, and bring in no no-break space or upper-case letter. |
| RangeProperties.NormaliseClean | gather.py:163-184 | For every phrase, the normalised text has no upper-case letter, space, colon, semicolon or no-break space. |
| RangeProperties.IdiomsInert | gather.py:164-169 | Text of digits, dots, dashes, commas and spaces is left alone by the idioms. |
| RangeProperties.NoiseInert | gather.py:170-180 | Such text is left alone by the noise words. |
| RangeProperties.OnlySpacesRemoved | gather.py:181-184 | On such text the separator rules only delete the spaces. |
| RangeProperties.IdiomFreeNormal | gather.py:163-184 | On text of digits, dots, dashes, commas and spaces, the whole cascade only deletes the spaces. |
| RangeProperties.LoneVersion | gather.py:190-193 | A piece without a dash gives low 0 and high the parsed token. The two trade places when the token is itself a zero version. A token that is not a version is the error. |
| RangeProperties.OneDash | gather.py:194-196 | A piece `left-right` gives the stripped left and right versions, swapped when the left is not below the right. An invalid left side is the error before the right side is looked at. |
| RangeProperties.ManyDashes | gather.py:197-198 | A piece with two or more dashes is the range 0 to 99. |
| RangeProperties.ManyDashesRecord | gather.py:197-204 | As stored, a piece with two or more dashes is the record {low "0", high "99"}. |
| RangeProperties.ZeroTexts | gather.py:164-190 | The defaults "0" and "99" and the idioms' "0.0.0" parse to their versions and print back as themselves. |
| RangeProperties.VersionUnstripped | gather.py:195-196 | Version text is its own `strip()`. |
| RangeProperties.OneOutcome | gather.py:188-204 | A single outcome gives one record, or its error. |
| RangeProperties.SinglePiece | gather.py:188-204 | Normalised text without a comma gives one record, the printed interval of the whole text, or that text's error. |
| RangeProperties.AboveFloor | gather.py:190-193 | A canonical version with a non-zero digit lies above the default low bound 0. |
| RangeProperties.SingleNormal | gather.py:163-184 | Text of digits and dots is left unchanged by the normaliser. |
| RangeProperties.SingleRecords | gather.py:188-204 | The one piece of a canonical version x with a non-zero digit gives exactly `[{low: "0", high: x}]`. |
| RangeProperties.SingleVersion | gather.py:153-205 | A phrase that is one canonical version x with a non-zero digit passes the sanity check and gives exactly `[{low: "0", high: x}]`. |
| RangeProperties.ReplaceOnce | gather.py:164-184 | A pattern occurring once, with no way to start an occurrence before it and none after it, is replaced exactly there. |
| RangeProperties.ToRewritten | gather.py:167 | Between two idiom-free texts, the idioms only turn "to" into a dash. |
| RangeProperties.BelowReplaced | gather.py:164 | The one "and below" at the end of a text without an "a" becomes " - 0.0.0". |
| RangeProperties.BelowRewritten | gather.py:164-169 | After an idiom-free text, the idioms only turn "and below" into " - 0.0.0". |
| RangeProperties.SpacesAroundDash | gather.py:182 | Deleting spaces from "a - b" deletes those of a and the two around the dash. |
| RangeProperties.TrailingSpaceGone | gather.py:182 | Deleting spaces deletes a trailing space. |
| RangeProperties.ToNormal | gather.py:163-184 | "x to y" normalises to "x-y". |
| RangeProperties.DashRecords | gather.py:188-204 | The single piece "x-y" of canonical versions gives their record, the smaller first. |
| RangeProperties.ToRange | gather.py:153-205 | "x to y" of canonical versions passes the sanity check and gives exactly one record holding x and y, the smaller first. So "5.0 to 1.0" gives {1.0, 5.0}. |
| RangeProperties.AndBelowNormal | gather.py:163-184 | "x and below" normalises to "x-0.0.0". |
| RangeProperties.NothingBelowZeros | gather.py:199 | No version is below an all-zero version. |
| RangeProperties.DashDownToZero | gather.py:194-204 | The one piece "x-z" of a canonical version and an all-zero one is the record from z up to x. |
| RangeProperties.BelowRecords | gather.py:194-204 | The one piece "x-0.0.0" gives exactly `[{low: "0.0.0", high: x}]`. |
| RangeProperties.AndBelow | gather.py:153-205 | "x and below" of a canonical version passes the sanity check and gives exactly `[{low: "0.0.0", high: x}]`. |
| RangeProperties.WildcardReplaced | gather.py:169 | The one ".x" at the end of a text without an "x" becomes ".9". |
| RangeProperties.Wildcard | gather.py:163-184 | "x.x" of version text normalises to "x.9". |
| RangeProperties.WildcardRecords | gather.py:153-205 | "x.x" of a canonical version passes the sanity check and gives exactly `[{low: "0", high: x.9}]`. |
| RangeProperties.SemicolonList | gather.py:163-184 | "a; b" of idiom-free texts normalises to a and b without spaces, around a comma. |
| RangeProperties.AndList | gather.py:163-184 | "a and b" of idiom-free texts normalises to a and b without spaces, around a comma. |
| RangeProperties.CollectTwo | gather.py:188-204 | Two outcomes in turn give both values, or the first error. |
| RangeProperties.TwoSegments | gather.py:188-204 | Normalised text of two comma-free pieces gives their two records in order. It succeeds exactly when both pieces do, and fails with the first piece's error when that piece fails. |
| RangeProperties.TwoPieces | gather.py:153-205 | The same for a phrase that normalises to two comma-free pieces. |
| RangeProperties.DashPiece | gather.py:194-204 | The piece "x-y" of canonical versions is stored as x and y, the smaller first. |
| RangeProperties.LonePiece | gather.py:190-204 | The piece "z" of a canonical version with a non-zero digit is stored as {low "0", high z}. |
| RangeProperties.RangeThenVersion | gather.py:153-205 | "x - y; z" gives the range between x and y, smaller first, then the range from 0 up to z. So "1.0 - 1.2; 2.0" gives [{1.0, 1.2}, {0, 2.0}]. |
| RangeProperties.TwoVersions | gather.py:153-205 | "x and z" gives the range from 0 up to x, then the range from 0 up to z. |
| Versions.AppendSegment | gather.py:169 | A canonical version followed by "." and a numeral is the canonical text of the version with that segment appended. |
| Versions.FormatRoundTrip | gather.py:202-204 | Parsing the printed text of a version gives back the same version. |
| Versions.CanonicalChars | gather.py:185 | Canonical version text is non-empty, starts with a digit, and has only digits and dots. |
| Versions.CompareConverse | gather.py:199 | Comparing the other way round gives the converse ordering. |
| Versions.NotLessIsAtLeast | gather.py:199-204 | When the first version is not below the second, the second is at most the first, so the swap leaves the bounds ordered. |
| Versions.CompareTransitive | gather.py:199 | The order is transitive, strictly so when either step is strict. |
| Versions.EqualIsPaddedEqual | gather.py:199 | Two versions are equal exactly when they agree in every segment once padded with zeros. |
| Versions.LessIsFirstDifference | gather.py:199 | A version is below another exactly when it has the smaller segment at the first padded position where they differ. |
| Versions.ZeroPadding | gather.py:199 | Trailing zero segments do not change a version's place in the order. |
| Versions.ZeroIsLeast | gather.py:189 | A version whose segments are all zero is at or below every version. |
| Versions.NonZeroAboveZero | gather.py:189 | A version with a non-zero segment is above every all-zero version. |
| Versions.NumeralValue | gather.py:202-204 | Reading the decimal text of a segment gives back the segment. |
| Strings.ReplaceIsSplitJoin | gather.py:164-184 | `s.replace(p, r)` equals `r.join(s.split(p))` for a non-empty pattern. |
| Strings.ReplaceRemoves | gather.py:172 | Replacing a one-character pattern by text without that character leaves none of it. |
| Strings.ReplaceChars | gather.py:164-184 | A replacement's output contains only characters of its input or of the replacement text. |
| Strings.SplitJoin | gather.py:188-191 | Splitting the join of pieces that do not contain the separator gives back the pieces. |
| Strings.JoinSplit | gather.py:188-191 | Joining the pieces of a split with the same separator gives back the text. |
| Strings.SplitCount | gather.py:191 | Splitting on a character gives one more piece than the character's number of occurrences. |
| Strings.SplitPiecesFree | gather.py:188-191 | No piece of a split on a character contains that character. |
| Strings.StripEnds | gather.py:194-195 | The result of `strip()` neither starts nor ends with whitespace. |
| Strings.SplitLast | gather.py:133 | The text after the last separator is the last piece of the split. |
| Advisories.ExtractAdvisoryLinks | gather.py:32-46 | The caller's list keeps its old contents as a prefix and gains exactly the advisory links of the page, in page order. |
| Advisories.AdvisoryLinks | gather.py:41-46 | The kept links in page order, never more than the buttons. Its promises are `AdvisoryLinksExactly` and `AdvisoryLinksConcat`. |
| Advisories.IsAdvisoryHref | gather.py:44-45 | A button's `href` is kept when it is present, non-empty and starts with `/security/advisory/`. Its promise is `AdvisoryLinksExactly`. |
| Advisories.AdvisoryLinksExactly | gather.py:42-46 | A link is appended exactly when some button has it as a non-empty `href` starting with `/security/advisory/`. |
| Advisories.AdvisoryLinksConcat | gather.py:41-46 | Filtering two runs of buttons, one after the other, gives the first run's links before the second's. |
| Advisories.Title | gather.py:133 | The title is as long as the link's last "/"-component, holds no "/" and has no lower-case letter. |
| Advisories.TitleOfLink | gather.py:133 | The title of any link `<path>/<name>` is `<name>` in upper case, nested paths included. |
| Advisories.TitleOfAdvisory | gather.py:133 | The title of `/security/advisory/<name>` is `<name>` in upper case. |
| Advisories.Completed | gather.py:131-138 | The completed metadata has the scraped keys plus URL, title and affected versions. The URL is the base URL followed by the link, the title is the link's upper-cased last component, and every other scraped value is kept. |
| Advisories.CompleteAdvisory | gather.py:131-138 | A missing "Affected Versions" key gives an empty list. Otherwise the key gives the parsed records of its text, and an invalid version in it is the error of the whole advisory. |

## Left out

- HTTP requests, pagination (`get_next_page_link_from_advisory`,
  `crawl_advisory_page`, `request_to_soup`) and the per-advisory loops
  (`get_core_advisories`, `get_extension_advisories`, `get_parsed_advisories`)
  are network I/O and are not part of this model.
- HTML traversal with BeautifulSoup is foreign code. The link filter takes the
  buttons' `href` attributes as a sequence of optional strings. The metadata
  completion takes the scraped key/value pairs as a map.
- The metadata scraping of `parse_advisory` (lines 108-129) is HTML traversal
  and is not modelled; only the completion at lines 131-138 is.
- `parse_version` is foreign code and is modelled on release versions only:
  dot-separated decimal segments, compared with zero padding and printed
  without leading zeros. Epochs, pre-, post- and dev-releases, local labels,
  a leading "v", and the surrounding whitespace the library tolerates are not
  modelled. Such tokens count as invalid. Older setuptools return a
  `LegacyVersion` for invalid text instead of raising, and its ordering is not
  modelled.
- Strings.Lower and Strings.Upper: map ASCII letters only, not the full Unicode
  case tables of Python's `lower()` and `upper()`.
- The console output (the sanity-check message at line 185, the message for a
  piece with many dashes at line 198, "Requesting" at lines 55 and 68) is not
  modelled. `ParseVulnerableVersions` returns the sanity-check result as a
  boolean instead of printing it.
- The regular expression at line 185 is modelled by its meaning:
  `UnexpectedStart` holds when the text is empty or its first character is
  not a digit, "-" or ",".
- The JSON file written at the end of the script, the script-level call and
  the commented-out SQLite code are output and dead code.
- `VersionRanges.BuildRecords`: the loop of lines 188-204 is a method of its own
  over the list of pieces, and `ParseVulnerableVersions` calls it after
  normalising, so that each proof stays within the solver's limits. The loop
  body is the source's, statement for statement.
- The normaliser's twenty-one `replace` calls (lines 164-184) are modelled as
  three lists of rules, `Idioms`, `Noise` and `Separators`, applied in the
  source's order by `ApplyRules`; the rules are the source's, one for one.
