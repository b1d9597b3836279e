/**
 Turning PubMed's answer into search results. The two remote calls (the id
 search and the batch detail fetch) are parameters: the model sees only what
 they return, as a list of ids and a list of parsed MEDLINE records.
 */
module PubMed {
  import opened Joining
  import opened Substrings
  import opened Query

  /**
   A parsed MEDLINE record. The parser keeps each single-valued tag (TI, JT,
   DP, LID, PMID, ...) as one string and each repeatable tag (AU, ...) as a
   list of strings.
   */
  datatype MedlineRecord = MedlineRecord(text: map<string, string>, lists: map<string, seq<string>>)

  /** One search result, its seven fields in column order. */
  datatype Entry = Entry(
    source: string,
    title: string,
    authors: string,
    journal: string,
    year: string,
    doi: string,
    link: string)

  const Source := "PubMed"
  const AuthorSeparator := ", "
  const DoiMarker := " [doi]"
  const LinkPrefix := "https://pubmed.ncbi.nlm.nih.gov/"

  /** Page size of the id search. */
  const RetMax: nat := 50

  /** `art.get(tag, "")` for a single-valued tag. */
  function TextTag(r: MedlineRecord, tag: string): string
  {
    if tag in r.text then r.text[tag] else ""
  }

  /** `art.get(tag, [])` for a repeatable tag. */
  function ListTag(r: MedlineRecord, tag: string): seq<string>
  {
    if tag in r.lists then r.lists[tag] else []
  }

  /**
   The year is the publication date up to its first single space: a prefix
   of the date holding no space, and all of the date when it has none.
   */
  function Year(date: string): (y: string)
    ensures |y| <= |date| && y == date[..|y|]
    ensures ' ' !in y
    ensures y == date || date[|y|] == ' '
  {
    BeforeFirst(date, ' ')
  }

  /**
   The DOI is the location id with every " [doi]" marker deleted: never
   longer than the id, and the id itself exactly when it holds no marker.
   */
  function Doi(lid: string): (d: string)
    ensures |d| <= |lid|
    ensures d == lid <==> !Occurs(lid, DoiMarker)
  {
    RemoveAllUnchanged(lid, DoiMarker);
    RemoveAll(lid, DoiMarker)
  }

  /** The article's page: the fixed prefix, the PMID, and a closing slash. */
  function Link(pmid: string): (l: string)
    ensures |l| == |LinkPrefix| + |pmid| + 1
    ensures l[..|LinkPrefix|] == LinkPrefix && l[|l| - 1] == '/'
  {
    LinkPrefix + pmid + "/"
  }

  /** The PMID written in a link (the text between the prefix and the final slash). */
  function PmidOfLink(l: string): string
    requires |l| > |LinkPrefix|
  {
    l[|LinkPrefix|..|l| - 1]
  }

  /** The map from one MEDLINE record to one entry. */
  function Normalize(r: MedlineRecord): (e: Entry)
    ensures e.source == Source
    ensures e.title == (if "TI" in r.text then r.text["TI"] else "")
    ensures e.journal == (if "JT" in r.text then r.text["JT"] else "")
    ensures "AU" !in r.lists ==> e.authors == ""
    ensures "AU" in r.lists ==> e.authors == Join(AuthorSeparator, r.lists["AU"])
    ensures |e.year| <= |TextTag(r, "DP")| && e.year == TextTag(r, "DP")[..|e.year|] && ' ' !in e.year
    ensures e.year == TextTag(r, "DP") || TextTag(r, "DP")[|e.year|] == ' '
    ensures e.doi == Doi(TextTag(r, "LID"))
    ensures !Occurs(TextTag(r, "LID"), DoiMarker) ==> e.doi == TextTag(r, "LID")
    ensures e.link == Link(TextTag(r, "PMID"))
    ensures |e.link| > |LinkPrefix| && PmidOfLink(e.link) == TextTag(r, "PMID")
  {
    Entry(
      Source,
      TextTag(r, "TI"),
      Join(AuthorSeparator, ListTag(r, "AU")),
      TextTag(r, "JT"),
      Year(TextTag(r, "DP")),
      Doi(TextTag(r, "LID")),
      Link(TextTag(r, "PMID")))
  }

  /** The loop over the parsed records: one entry per record, in record order. */
  function NormalizeAll(records: seq<MedlineRecord>): (es: seq<Entry>)
    ensures |es| == |records|
    ensures forall i :: 0 <= i < |records| ==> es[i] == Normalize(records[i])
  {
    if records == [] then []
    else
      var rest := NormalizeAll(records[1..]);
      NormalizeAllStep(records, rest);
      [Normalize(records[0])] + rest
  }

  /** The first record's entry in front of the entries of the others. */
  lemma NormalizeAllStep(records: seq<MedlineRecord>, rest: seq<Entry>)
    requires records != [] && |rest| == |records| - 1
    requires forall i :: 0 <= i < |rest| ==> rest[i] == Normalize(records[1..][i])
    ensures var es := [Normalize(records[0])] + rest;
            |es| == |records| && forall i :: 0 <= i < |records| ==> es[i] == Normalize(records[i])
  {
    var es := [Normalize(records[0])] + rest;
    forall i | 0 < i < |records|
      ensures es[i] == Normalize(records[i])
    {
      assert es[i] == rest[i - 1];
      assert records[1..][i - 1] == records[i];
    }
  }

  /**
   The search: build the query, ask for at most RetMax ids, and stop with no
   results when there are none; otherwise fetch the records of all ids in one
   batch and normalize them in order.
   */
  function FetchPubMed(
    keywords: string, startDate: string, endDate: string,
    search: (string, nat) -> seq<string>,
    efetch: seq<string> -> seq<MedlineRecord>): (es: seq<Entry>)
    ensures var ids := search(BuildQuery(keywords, startDate, endDate), RetMax);
            && (ids == [] ==> es == [])
            && (ids != [] ==>
                  && |es| == |efetch(ids)|
                  && forall i :: 0 <= i < |es| ==> es[i] == Normalize(efetch(ids)[i]))
  {
    var ids := search(BuildQuery(keywords, startDate, endDate), RetMax);
    if ids == [] then [] else NormalizeAll(efetch(ids))
  }

  /** With no ids the detail fetch is never consulted: any two fetchers give the same, empty, answer. */
  lemma NoIdsNoDetailFetch(
    keywords: string, startDate: string, endDate: string,
    search: (string, nat) -> seq<string>,
    efetch: seq<string> -> seq<MedlineRecord>,
    otherFetch: seq<string> -> seq<MedlineRecord>)
    requires search(BuildQuery(keywords, startDate, endDate), RetMax) == []
    ensures FetchPubMed(keywords, startDate, endDate, search, efetch) == []
    ensures FetchPubMed(keywords, startDate, endDate, search, efetch)
         == FetchPubMed(keywords, startDate, endDate, search, otherFetch)
  {
  }

  /** A record without any of the tags gives empty fields and a link with no id in it. */
  lemma EmptyRecord()
    ensures Normalize(MedlineRecord(map[], map[]))
         == Entry("PubMed", "", "", "", "", "", "https://pubmed.ncbi.nlm.nih.gov//")
  {
  }

  /** The link gives back the PMID it was built from, so distinct PMIDs give distinct links. */
  lemma LinkRoundTrip(pmid: string)
    ensures PmidOfLink(Link(pmid)) == pmid
  {
  }

  /** The DOI marker cannot overlap itself. */
  lemma DoiMarkerBorderless()
    ensures Borderless(DoiMarker)
  {
    // only the first character is a space, so no proper suffix starts like the marker
    forall k | 0 < k < |DoiMarker|
      ensures DoiMarker[k..] != DoiMarker[..|DoiMarker| - k]
    {
      assert DoiMarker[k..][0] == DoiMarker[k] != ' ';
      assert DoiMarker[..|DoiMarker| - k][0] == ' ';
    }
  }

  /**
   Text free of the marker, then the marker, then anything: the text is kept
   verbatim and only the rest is scanned further. With an empty rest this is
   `X + " [doi]"` mapping to X.
   */
  lemma DoiAfterMarker(x: string, rest: string)
    requires !Occurs(x, DoiMarker)
    ensures Doi(x + DoiMarker + rest) == x + Doi(rest)
    ensures Doi(x + DoiMarker) == x
  {
    DoiMarkerBorderless();
    RemoveAllAfterClean(x, DoiMarker, rest);
    RemoveAllAfterClean(x, DoiMarker, "");
    assert x + DoiMarker + "" == x + DoiMarker;
  }

  /**
   Deletion is one left-to-right pass: deleting the inner marker of
   " [d [doi]oi]" leaves a marker behind.
   */
  lemma DoiSinglePass()
    ensures Doi(" [d [doi]oi]") == DoiMarker
    ensures Occurs(Doi(" [d [doi]oi]"), DoiMarker)
  {
    var x, y := " [d", "oi]";
    assert " [d [doi]oi]" == x + DoiMarker + y;
    ShorterThanPattern(x, DoiMarker);
    ShorterThanPattern(y, DoiMarker);
    DoiAfterMarker(x, y);
    RemoveAllNoOccurrence(y, DoiMarker);
    assert x + y == DoiMarker;
    assert OccursAt(DoiMarker, DoiMarker, 0);
  }
}
