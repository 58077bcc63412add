/**
 * The two small pieces of the crawler around the range parser:
 * `extract_advisory_links` (gather.py lines 32-46), which keeps the buttons'
 * links that point at an advisory and appends them to the caller's list, and
 * the end of `parse_advisory` (lines 131-138), which completes the scraped
 * metadata of one advisory with its URL, its title and its affected ranges.
 */
module Advisories {
  import opened Wrappers
  import opened Strings
  import opened VersionRanges

  // ---------------------------------------------------------------------------
  // Advisory links

  /** Every advisory lives under this path of the site. */
  const AdvisoryPrefix: string := "/security/advisory/"

  /** A button's `href` that is kept: present, not empty, and under the advisory path. */
  predicate IsAdvisoryHref(href: Option<string>)
  {
    href.Some? && href.value != [] && AdvisoryPrefix <= href.value
  }

  /** The links kept from a page's button hrefs, in page order. */
  function AdvisoryLinks(hrefs: seq<Option<string>>): (links: seq<string>)
    ensures |links| <= |hrefs|
  {
    if hrefs == [] then []
    else
      var last := hrefs[|hrefs| - 1];
      AdvisoryLinks(hrefs[..|hrefs| - 1]) + (if IsAdvisoryHref(last) then [last.value] else [])
  }

  /** The caller's `result_list`, to which the extractor appends. */
  class LinkList {
    var items: seq<string>

    constructor (initial: seq<string>)
      ensures items == initial
    {
      items := initial;
    }
  }

  /**
   * `extract_advisory_links(soup, result_list)`, given the `href` of every
   * button on the page (`None` where the attribute is missing): appends the
   * advisory links in page order and leaves what was in the list before.
   */
  method ExtractAdvisoryLinks(hrefs: seq<Option<string>>, resultList: LinkList)
    modifies resultList
    ensures resultList.items == old(resultList.items) + AdvisoryLinks(hrefs)
  {
    var i := 0;
    while i < |hrefs|
      invariant 0 <= i <= |hrefs|
      invariant resultList.items == old(resultList.items) + AdvisoryLinks(hrefs[..i])
    {
      var href := hrefs[i];
      if href.Some? && href.value != [] {
        if AdvisoryPrefix <= href.value {
          resultList.items := resultList.items + [href.value];
        }
      }
      assert hrefs[..i + 1][..i] == hrefs[..i];
      i := i + 1;
    }
    assert hrefs[..|hrefs|] == hrefs;
  }

  /** Extracting two pages one after the other keeps the first page's links before the second's. */
  lemma {:induction false} AdvisoryLinksConcat(a: seq<Option<string>>, b: seq<Option<string>>)
    ensures AdvisoryLinks(a + b) == AdvisoryLinks(a) + AdvisoryLinks(b)
    decreases |b|
  {
    if b == [] {
      assert a + b == a;
    } else {
      var c := a + b;
      assert c[..|c| - 1] == a + b[..|b| - 1];
      assert c[|c| - 1] == b[|b| - 1];
      AdvisoryLinksConcat(a, b[..|b| - 1]);
    }
  }

  /** A link is kept exactly when some button has it as its `href` and it is an advisory path. */
  lemma {:induction false} AdvisoryLinksExactly(hrefs: seq<Option<string>>, link: string)
    ensures link in AdvisoryLinks(hrefs) <==> Some(link) in hrefs && link != [] && AdvisoryPrefix <= link
    decreases |hrefs|
  {
    if hrefs != [] {
      var init := hrefs[..|hrefs| - 1];
      AdvisoryLinksExactly(init, link);
      assert hrefs == init + [hrefs[|hrefs| - 1]];
    }
  }

  // ---------------------------------------------------------------------------
  // Completing an advisory's metadata

  /** A metadata value: scraped text, or the parsed list of affected ranges. */
  datatype Field = Text(text: string) | Ranges(records: seq<VersionRecord>)

  /** The advisory's title: the last component of its link, in upper case. */
  function Title(relativeLink: string): (title: string)
    ensures |title| == |LastPiece(relativeLink, "/")|
    ensures '/' !in title
    ensures forall c :: c in title ==> !IsLower(c)
  {
    var parts := Split(relativeLink, "/");
    SplitPiecesFree(relativeLink, '/');
    assert '/' !in parts[|parts| - 1];
    CaseMapped(LastPiece(relativeLink, "/"));
    Upper(LastPiece(relativeLink, "/"))
  }

  /** The title of any link `<path>/<name>` is `<name>` in upper case. */
  lemma TitleOfLink(path: string, name: string)
    requires '/' !in name
    ensures Title(path + "/" + name) == Upper(name)
  {
    SplitLast(path, name, '/');
  }

  /** The title of `/security/advisory/<name>` is `<name>` in upper case. */
  lemma TitleOfAdvisory(name: string)
    requires '/' !in name
    ensures Title(AdvisoryPrefix + name) == Upper(name)
  {
    var u := "/security/advisory";
    assert AdvisoryPrefix + name == u + "/" + name;
    TitleOfLink(u, name);
  }

  /**
   * The scraped metadata completed with the advisory's URL and title (over
   * any scraped values of those keys) and with the given affected ranges.
   */
  function Completed(baseUrl: string, scraped: map<string, string>, relativeLink: string, affected: seq<VersionRecord>)
    : (data: map<string, Field>)
    ensures data.Keys == scraped.Keys + {"Advisory URL", "Title", "Affected Versions"}
    ensures data["Advisory URL"] == Text(baseUrl + relativeLink)
    ensures data["Title"] == Text(Title(relativeLink))
    ensures data["Affected Versions"] == Ranges(affected)
    ensures forall k :: k in scraped && k !in {"Advisory URL", "Title", "Affected Versions"} ==> data[k] == Text(scraped[k])
  {
    var fields := map k | k in scraped :: Text(scraped[k]);
    fields["Advisory URL" := Text(baseUrl + relativeLink)]["Title" := Text(Title(relativeLink))]["Affected Versions" := Ranges(affected)]
  }

  /**
   * The end of `parse_advisory`: the scraped metadata with the advisory's URL
   * and title added and its "Affected Versions" text replaced by the parsed
   * ranges; an advisory without that key gets an empty list, and an invalid
   * version in it is the error.
   */
  method CompleteAdvisory(baseUrl: string, scraped: map<string, string>, relativeLink: string)
    returns (result: Result<map<string, Field>, ParseError>)
    ensures "Affected Versions" !in scraped ==> result == Success(Completed(baseUrl, scraped, relativeLink, []))
    ensures "Affected Versions" in scraped && VulnerableRecords(scraped["Affected Versions"]).Failure? ==>
              result == Failure(VulnerableRecords(scraped["Affected Versions"]).error)
    ensures "Affected Versions" in scraped && VulnerableRecords(scraped["Affected Versions"]).Success? ==>
              result == Success(Completed(baseUrl, scraped, relativeLink, VulnerableRecords(scraped["Affected Versions"]).value))
  {
    var data: map<string, Field> := map k | k in scraped :: Text(scraped[k]);
    data := data["Advisory URL" := Text(baseUrl + relativeLink)];
    data := data["Title" := Text(Title(relativeLink))];
    if "Affected Versions" in scraped {
      var records, _ := ParseVulnerableVersions(scraped["Affected Versions"]);
      if records.Failure? {
        return Failure(records.error);
      }
      data := data["Affected Versions" := Ranges(records.value)];
    } else {
      data := data["Affected Versions" := Ranges([])];
    }
    result := Success(data);
  }
}
