/** The retrieval agent's parsing of search results from Semantic Scholar,
    CrossRef and OpenAlex, its deduplication, and the merge of the per-source
    results into the final ranked list. */
module Retrieval {
  import opened Wrappers
  import opened Text
  import opened Sorting

  /** A JSON value read with `.get(key, default)`: the key may be absent, hold
      `null`, or hold a value. */
  datatype Field<T> = Absent | Null | Present(value: T)

  /** A paper as the parsers return it. `doi` is `None` where the parser stores
      Python's `None`; `abstractText` is `None` where the stored abstract is not
      a string (`null`, or OpenAlex's inverted-index object); `paperId` and
      `openAccessPdf` are `None` where the record has no such key. */
  datatype Retrieved = Retrieved(
    title: string,
    authors: seq<string>,
    year: int,
    doi: Option<string>,
    abstractText: Option<string>,
    journal: string,
    url: string,
    citationsCount: int,
    source: string,
    paperId: Option<string>,
    openAccessPdf: Option<string>,
    relevanceScore: int)

  // ---------------------------------------------------------------------------
  // Semantic Scholar

  /** A Semantic Scholar record; a missing plain field is passed as the
      parser's default. `authorNames` holds each author's `name`, if any. */
  datatype ScholarRecord = ScholarRecord(
    title: string,
    authorNames: seq<Option<string>>,
    year: int,
    abstractText: Field<string>,
    venue: string,
    url: string,
    citationCount: int,
    paperId: string,
    openAccessPdf: Field<Option<string>>)

  /** What `.get(key, '')` stores for a string field: the default when the key
      is missing, and `None` (no string) when it holds `null`. */
  function StoredText(f: Field<string>): (r: Option<string>)
    ensures r.None? <==> f.Null?
    ensures f.Present? ==> r == Some(f.value)
    ensures f.Absent? ==> r == Some("")
  {
    match f
    case Absent => Some("")
    case Null => None
    case Present(text) => Some(text)
  }

  /** The comprehension `[author.get('name', '') for author in ...]`, element by
      element; what it means for a paper is stated by `ParseSemanticScholar`. */
  function ScholarAuthors(names: seq<Option<string>>): (r: seq<string>)
    ensures |r| == |names|
    ensures forall k :: 0 <= k < |r| ==> r[k] == names[k].GetOr("")
  {
    seq(|names|, k requires 0 <= k < |names| => names[k].GetOr(""))
  }

  /** `_parse_semantic_scholar_paper`. A `null` `openAccessPdf` makes
      `.get('url', '')` raise, and the parser then returns `None`. */
  function ParseSemanticScholar(data: ScholarRecord): (r: Option<Retrieved>)
    ensures r.None? <==> data.openAccessPdf.Null?
    ensures r.Some? ==> (r.value.doi.None? && r.value.source == "semantic_scholar"
      && r.value.authors == ScholarAuthors(data.authorNames) && r.value.title == data.title
      && r.value.abstractText == StoredText(data.abstractText))
  {
    match data.openAccessPdf
    case Null => None
    case Absent => Some(ScholarPaper(data, ""))
    case Present(pdf) => Some(ScholarPaper(data, pdf.GetOr("")))
  }

  function ScholarPaper(data: ScholarRecord, pdf: string): Retrieved {
    Retrieved(data.title, ScholarAuthors(data.authorNames), data.year, None, StoredText(data.abstractText),
              data.venue, data.url, data.citationCount, "semantic_scholar", Some(data.paperId), Some(pdf), 0)
  }

  // ---------------------------------------------------------------------------
  // CrossRef

  datatype CrossrefAuthor = CrossrefAuthor(given: string, family: string)

  datatype CrossrefLink = CrossrefLink(intendedApplication: Option<string>, url: string)

  /** A CrossRef record. `title` and `containerTitle` are the lists (empty when
      missing); `publishedPrint` is the `published-print` object, holding its
      `date-parts` list; `doi` is the `DOI` field. */
  datatype CrossrefRecord = CrossrefRecord(
    authors: seq<CrossrefAuthor>,
    links: seq<CrossrefLink>,
    doi: string,
    title: seq<string>,
    publishedPrint: Field<Field<seq<seq<int>>>>,
    containerTitle: seq<string>,
    url: string,
    referencedByCount: int)

  /** The name an author contributes, if any. */
  function CrossrefName(a: CrossrefAuthor): Option<string> {
    if a.given != "" && a.family != "" then Some(a.given + " " + a.family)
    else if a.family != "" then Some(a.family)
    else None
  }

  function CrossrefAuthors(authors: seq<CrossrefAuthor>): seq<string>
    decreases |authors|
  {
    if authors == [] then []
    else
      var front := CrossrefAuthors(authors[..|authors| - 1]);
      match CrossrefName(authors[|authors| - 1])
      case Some(name) => front + [name]
      case None => front
  }

  lemma CrossrefAuthorsStep(authors: seq<CrossrefAuthor>, k: nat)
    requires k < |authors|
    ensures CrossrefAuthors(authors[..k + 1]) ==
      match CrossrefName(authors[k])
      case Some(name) => CrossrefAuthors(authors[..k]) + [name]
      case None => CrossrefAuthors(authors[..k])
  {
    assert authors[..k + 1][..k] == authors[..k];
  }

  /** Authors without a family name are dropped and nothing else is. */
  lemma {:induction false} CrossrefAuthorsCount(authors: seq<CrossrefAuthor>)
    ensures |CrossrefAuthors(authors)| == |set k | 0 <= k < |authors| && authors[k].family != ""|
    decreases |authors|
  {
    if authors != [] {
      var n := |authors| - 1;
      CrossrefAuthorsCount(authors[..n]);
      FamilyCountStep(authors);
    }
  }

  lemma FamilyCountStep(authors: seq<CrossrefAuthor>)
    requires authors != []
    ensures var n := |authors| - 1;
      |set k | 0 <= k < |authors| && authors[k].family != ""| ==
      |set k | 0 <= k < n && authors[..n][k].family != ""| + (if authors[n].family != "" then 1 else 0)
  {
    var n := |authors| - 1;
    var before := set k | 0 <= k < n && authors[..n][k].family != "";
    var after := set k | 0 <= k < |authors| && authors[k].family != "";
    assert before == set k | 0 <= k < n && authors[k].family != "";
    if authors[n].family != "" {
      assert after == before + {n};
    } else {
      assert after == before;
    }
  }

  /** When every author has a family name, the i-th name belongs to the
      i-th author: given and family separated by a space, or the family alone. */
  lemma {:induction false} CrossrefAuthorsInOrder(authors: seq<CrossrefAuthor>)
    requires forall k :: 0 <= k < |authors| ==> authors[k].family != ""
    ensures |CrossrefAuthors(authors)| == |authors|
    ensures forall k :: 0 <= k < |authors| ==>
      CrossrefAuthors(authors)[k] ==
        (if authors[k].given == "" then authors[k].family else authors[k].given + " " + authors[k].family)
    decreases |authors|
  {
    if authors != [] {
      CrossrefAuthorsInOrder(authors[..|authors| - 1]);
    }
  }

  /** The names of a concatenation are the names of its parts, one after the
      other: dropped authors leave the order of the others alone. */
  lemma {:induction false} CrossrefAuthorsAppend(a: seq<CrossrefAuthor>, b: seq<CrossrefAuthor>)
    ensures CrossrefAuthors(a + b) == CrossrefAuthors(a) + CrossrefAuthors(b)
    decreases |b|
  {
    if b == [] {
      assert a + b == a;
    } else {
      var n := |b| - 1;
      assert (a + b)[..|a + b| - 1] == a + b[..n];
      assert (a + b)[|a + b| - 1] == b[n];
      CrossrefAuthorsAppend(a, b[..n]);
      match CrossrefName(b[n])
      case Some(name) =>
        assert CrossrefAuthors(a) + CrossrefAuthors(b[..n]) + [name] == CrossrefAuthors(a) + (CrossrefAuthors(b[..n]) + [name]);
      case None =>
    }
  }

  /** One author gives its name, or nothing without a family name. */
  lemma CrossrefAuthorsSingle(x: CrossrefAuthor)
    ensures CrossrefAuthors([x]) ==
      if x.family == "" then [] else if x.given == "" then [x.family] else [x.given + " " + x.family]
  {
    assert [x][..0] == [];
  }

  /** The index of the first link meant for text mining. */
  function FirstTextMining(links: seq<CrossrefLink>): (r: Option<nat>)
    ensures r.Some? ==> r.value < |links| && links[r.value].intendedApplication == Some("text-mining")
    ensures r.Some? ==> forall k :: 0 <= k < r.value ==> links[k].intendedApplication != Some("text-mining")
    ensures r.None? ==> forall k :: 0 <= k < |links| ==> links[k].intendedApplication != Some("text-mining")
    decreases |links|
  {
    if links == [] then None
    else if links[0].intendedApplication == Some("text-mining") then Some(0)
    else match FirstTextMining(links[1..])
      case Some(k) => Some(k + 1)
      case None => None
  }

  const DxDoiPrefix := "https://dx.doi.org/"

  /** The DOI the CrossRef parser stores. */
  function CrossrefDoi(data: CrossrefRecord): string {
    var linked := match FirstTextMining(data.links)
      case Some(k) => ReplaceAll(data.links[k].url, DxDoiPrefix, "")
      case None => "";
    if linked == "" then data.doi else linked
  }

  /** The DOI comes from the first text-mining link when that gives a non-empty
      string, and otherwise from the `DOI` field. */
  lemma CrossrefDoiSource(data: CrossrefRecord)
    ensures FirstTextMining(data.links).None? ==> CrossrefDoi(data) == data.doi
    ensures CrossrefDoi(data) == "" ==> data.doi == ""
    ensures forall k ::
      (0 <= k < |data.links| && FirstTextMining(data.links) == Some(k) && ReplaceAll(data.links[k].url, DxDoiPrefix, "") == "")
      ==> CrossrefDoi(data) == data.doi
    ensures forall k ::
      (0 <= k < |data.links| && FirstTextMining(data.links) == Some(k) && ReplaceAll(data.links[k].url, DxDoiPrefix, "") != "")
      ==> CrossrefDoi(data) == ReplaceAll(data.links[k].url, DxDoiPrefix, "")
  {
  }

  /** A link URL without the resolver prefix is taken as it is. */
  lemma CrossrefDoiPlain(data: CrossrefRecord, k: nat)
    requires FirstTextMining(data.links) == Some(k)
    requires !Contains(data.links[k].url, DxDoiPrefix) && data.links[k].url != ""
    ensures CrossrefDoi(data) == data.links[k].url
  {
    ReplaceAllAbsent(data.links[k].url, DxDoiPrefix, "");
  }

  function FirstOrEmpty(xs: seq<string>): string {
    if |xs| > 0 then xs[0] else ""
  }

  /** `published-print.date-parts[0][0]`, where a missing object or list is
      taken as the code's default (`{}`, then `[[0]]`); `None` where the lookup
      raises. */
  function CrossrefYear(publishedPrint: Field<Field<seq<seq<int>>>>): (r: Option<int>)
    ensures r.None? <==> YearLookupRaises(publishedPrint)
    ensures r.Some? && publishedPrint.Present? && publishedPrint.value.Present? ==>
      r.value == publishedPrint.value.value[0][0]
    ensures r.Some? && !(publishedPrint.Present? && publishedPrint.value.Present?) ==> r.value == 0
  {
    match publishedPrint
    case Absent => Some(0)
    case Null => None
    case Present(Absent) => Some(0)
    case Present(Null) => None
    case Present(Present(parts)) => if |parts| > 0 && |parts[0]| > 0 then Some(parts[0][0]) else None
  }

  /** The lookup raises when `.get` meets a `null` object, when `[0]` meets a
      `null` list, or when `[0]` meets an empty list. */
  predicate YearLookupRaises(publishedPrint: Field<Field<seq<seq<int>>>>) {
    || publishedPrint.Null?
    || (publishedPrint.Present? && publishedPrint.value.Null?)
    || (publishedPrint.Present? && publishedPrint.value.Present? &&
        (publishedPrint.value.value == [] || publishedPrint.value.value[0] == []))
  }

  /** `_parse_crossref_paper`. */
  method ParseCrossref(data: CrossrefRecord) returns (r: Option<Retrieved>)
    ensures r.None? <==> YearLookupRaises(data.publishedPrint)
    ensures r.Some? ==> r.value == Retrieved(
      FirstOrEmpty(data.title), CrossrefAuthors(data.authors), CrossrefYear(data.publishedPrint).value,
      Some(CrossrefDoi(data)), Some(""), FirstOrEmpty(data.containerTitle), data.url, data.referencedByCount,
      "crossref", None, None, 0)
  {
    var authors: seq<string> := [];
    for k := 0 to |data.authors|
      invariant authors == CrossrefAuthors(data.authors[..k])
    {
      CrossrefAuthorsStep(data.authors, k);
      var given, family := data.authors[k].given, data.authors[k].family;
      if given != "" && family != "" {
        authors := authors + [given + " " + family];
      } else if family != "" {
        authors := authors + [family];
      }
    }
    assert data.authors[..|data.authors|] == data.authors;
    var doi: Option<string> := None;
    var k := 0;
    while k < |data.links|
      invariant k <= |data.links|
      invariant forall m :: 0 <= m < k ==> data.links[m].intendedApplication != Some("text-mining")
      invariant doi.None?
    {
      if data.links[k].intendedApplication == Some("text-mining") {
        doi := Some(ReplaceAll(data.links[k].url, DxDoiPrefix, ""));
        break;
      }
      k := k + 1;
    }
    assert doi.Some? ==> FirstTextMining(data.links) == Some(k) && doi.value == ReplaceAll(data.links[k].url, DxDoiPrefix, "");
    if doi.None? || doi.value == "" {
      doi := Some(data.doi);
    }
    var year := CrossrefYear(data.publishedPrint);
    if year.None? {
      return None;
    }
    r := Some(Retrieved(FirstOrEmpty(data.title), authors, year.value, doi, Some(""), FirstOrEmpty(data.containerTitle),
                        data.url, data.referencedByCount, "crossref", None, None, 0));
  }

  // ---------------------------------------------------------------------------
  // OpenAlex

  /** An OpenAlex record. Each authorship's `author` object may be missing or
      `null`, and its `display_name` missing; `ids` is the `ids` object's
      entries in order; `primaryLocation` is the `primary_location` object and
      its `source` object, whose `display_name` is the journal;
      `abstractInvertedIndex` maps each word of the abstract to its positions. */
  datatype OpenAlexRecord = OpenAlexRecord(
    authorships: seq<Field<Option<string>>>,
    ids: seq<(string, string)>,
    title: string,
    publicationYear: int,
    abstractInvertedIndex: Field<map<string, seq<int>>>,
    primaryLocation: Field<Field<Option<string>>>,
    id: string,
    citedByCount: int)

  /** The author names, or `None` when an `author` object is `null`. */
  function OpenAlexAuthors(authorships: seq<Field<Option<string>>>): Option<seq<string>>
    decreases |authorships|
  {
    if authorships == [] then Some([])
    else
      match OpenAlexAuthors(authorships[..|authorships| - 1])
      case None => None
      case Some(front) =>
        match authorships[|authorships| - 1]
        case Null => None
        case Absent => Some(front)
        case Present(name) => if name.GetOr("") != "" then Some(front + [name.value]) else Some(front)
  }

  /** The names are the non-empty display names, and the parse fails exactly
      when some authorship has a `null` author. */
  lemma {:induction false} OpenAlexAuthorsSpec(authorships: seq<Field<Option<string>>>)
    ensures OpenAlexAuthors(authorships).None? <==> exists k :: 0 <= k < |authorships| && authorships[k].Null?
    ensures OpenAlexAuthors(authorships).Some? ==> forall x :: x in OpenAlexAuthors(authorships).value <==>
      x != "" && exists k :: 0 <= k < |authorships| && authorships[k] == Present(Some(x))
    decreases |authorships|
  {
    if authorships != [] {
      var n := |authorships| - 1;
      var front := authorships[..n];
      OpenAlexAuthorsSpec(front);
      assert forall k :: 0 <= k < n ==> front[k] == authorships[k];
    }
  }

  /** The names of a concatenation are the names of its parts, one after the
      other, and it fails exactly when one part does: skipped authorships leave
      the order of the others alone. */
  lemma {:induction false} OpenAlexAuthorsAppend(a: seq<Field<Option<string>>>, b: seq<Field<Option<string>>>)
    ensures OpenAlexAuthors(a + b) ==
      if OpenAlexAuthors(a).Some? && OpenAlexAuthors(b).Some?
      then Some(OpenAlexAuthors(a).value + OpenAlexAuthors(b).value)
      else None
    decreases |b|
  {
    if b == [] {
      assert a + b == a;
      if OpenAlexAuthors(a).Some? {
        assert OpenAlexAuthors(a).value + [] == OpenAlexAuthors(a).value;
      }
    } else {
      var n := |b| - 1;
      assert (a + b)[..|a + b| - 1] == a + b[..n];
      assert (a + b)[|a + b| - 1] == b[n];
      OpenAlexAuthorsAppend(a, b[..n]);
      if OpenAlexAuthors(a).Some? && OpenAlexAuthors(b[..n]).Some? {
        var x, y := OpenAlexAuthors(a).value, OpenAlexAuthors(b[..n]).value;
        match b[n]
        case Present(name) =>
          if name.GetOr("") != "" {
            assert x + y + [name.value] == x + (y + [name.value]);
          }
        case _ =>
      }
    }
  }

  /** One authorship gives its non-empty display name, nothing, or a failure
      when its author is `null`. */
  lemma OpenAlexAuthorsSingle(x: Field<Option<string>>)
    ensures OpenAlexAuthors([x]) ==
      match x
      case Null => None
      case Absent => Some([])
      case Present(name) => if name.Some? && name.value != "" then Some([name.value]) else Some([])
  {
    assert [x][..0] == [];
    assert OpenAlexAuthors([]) == Some([]);
    if x.Present? && x.value.Some? {
      assert [] + [x.value.value] == [x.value.value];
    }
  }

  /** The value stored for `ids['doi']`, if the key is there. */
  function FirstDoiId(ids: seq<(string, string)>): (r: Option<string>)
    ensures r.Some? <==> exists k :: 0 <= k < |ids| && ids[k].0 == "doi"
    decreases |ids|
  {
    if ids == [] then None
    else if ids[0].0 == "doi" then Some(ids[0].1)
    else
      assert forall k :: 1 <= k < |ids| ==> ids[k] == ids[1..][k - 1];
      FirstDoiId(ids[1..])
  }

  const DoiPrefix := "https://doi.org/"
  const OpenAlexPrefix := "https://openalex.org/"

  function OpenAlexDoi(ids: seq<(string, string)>): Option<string> {
    match FirstDoiId(ids)
    case Some(d) => Some(ReplaceAll(d, DoiPrefix, ""))
    case None => None
  }

  /** The journal, or `None` where `.get` is called on a `null`. */
  function OpenAlexJournal(primaryLocation: Field<Field<Option<string>>>): Option<string> {
    match primaryLocation
    case Absent => Some("")
    case Null => None
    case Present(source) =>
      match source
      case Absent => Some("")
      case Null => None
      case Present(name) => Some(name.GetOr(""))
  }

  /** The parser stores `abstract_inverted_index` as the abstract: the default
      `''` only when the key is missing, otherwise the object or `null`, which
      is no string. */
  function OpenAlexAbstract(index: Field<map<string, seq<int>>>): (r: Option<string>)
    ensures r.Some? <==> index.Absent?
    ensures r.Some? ==> r.value == ""
  {
    if index.Absent? then Some("") else None
  }

  /** `_parse_openalex_paper`. */
  method ParseOpenAlex(data: OpenAlexRecord) returns (r: Option<Retrieved>)
    ensures r.None? <==> OpenAlexAuthors(data.authorships).None? || OpenAlexJournal(data.primaryLocation).None?
    ensures r.Some? ==> r.value == Retrieved(
      data.title, OpenAlexAuthors(data.authorships).value, data.publicationYear, OpenAlexDoi(data.ids),
      OpenAlexAbstract(data.abstractInvertedIndex), OpenAlexJournal(data.primaryLocation).value,
      ReplaceAll(data.id, OpenAlexPrefix, DoiPrefix), data.citedByCount, "openalex", None, None, 0)
  {
    var authors: seq<string> := [];
    for k := 0 to |data.authorships|
      invariant OpenAlexAuthors(data.authorships[..k]) == Some(authors)
    {
      assert data.authorships[..k + 1][..k] == data.authorships[..k];
      match data.authorships[k]
      case Null =>
        OpenAlexAuthorsNull(data.authorships, k);
        return None;
      case Absent =>
      case Present(name) =>
        var authorName := if name.Some? then name.value else "";
        if authorName != "" {
          authors := authors + [authorName];
        }
    }
    assert data.authorships[..|data.authorships|] == data.authorships;
    var doi: Option<string> := None;
    var k := 0;
    while k < |data.ids|
      invariant k <= |data.ids|
      invariant FirstDoiId(data.ids) == FirstDoiId(data.ids[k..])
      invariant doi.None?
    {
      if data.ids[k].0 == "doi" {
        doi := Some(ReplaceAll(data.ids[k].1, DoiPrefix, ""));
        break;
      }
      assert data.ids[k..][1..] == data.ids[k + 1..];
      k := k + 1;
    }
    var journal := OpenAlexJournal(data.primaryLocation);
    if journal.None? {
      return None;
    }
    r := Some(Retrieved(data.title, authors, data.publicationYear, doi, OpenAlexAbstract(data.abstractInvertedIndex), journal.value,
                        ReplaceAll(data.id, OpenAlexPrefix, DoiPrefix), data.citedByCount, "openalex", None, None, 0));
  }

  /** A `null` author anywhere makes the whole author list fail. */
  lemma {:induction false} OpenAlexAuthorsNull(authorships: seq<Field<Option<string>>>, k: nat)
    requires k < |authorships| && authorships[k].Null?
    ensures OpenAlexAuthors(authorships).None?
  {
    OpenAlexAuthorsSpec(authorships);
  }

  /** The url points at the DOI resolver instead of OpenAlex. */
  lemma OpenAlexUrl(rest: string)
    ensures ReplaceAll(OpenAlexPrefix + rest, OpenAlexPrefix, DoiPrefix) ==
      DoiPrefix + ReplaceAll(rest, OpenAlexPrefix, DoiPrefix)
  {
    ReplaceAllPrefix(rest, OpenAlexPrefix, DoiPrefix);
  }

  // ---------------------------------------------------------------------------
  // Deduplication

  /** `f"{title}_{first_author}"` over the lower-cased, stripped title and first author. */
  function DedupKey(p: Retrieved): string {
    var first := if |p.authors| > 0 then Strip(Lower(p.authors[0])) else "";
    Strip(Lower(p.title)) + "_" + first
  }

  function KeysOf(papers: seq<Retrieved>): set<string> {
    set k | 0 <= k < |papers| :: DedupKey(papers[k])
  }

  /** The papers kept: each the first with its key. */
  function Dedup(papers: seq<Retrieved>): seq<Retrieved>
    decreases |papers|
  {
    if papers == [] then []
    else
      var front := Dedup(papers[..|papers| - 1]);
      var last := papers[|papers| - 1];
      if DedupKey(last) in KeysOf(front) then front else front + [last]
  }

  lemma KeysOfSnoc(papers: seq<Retrieved>, p: Retrieved)
    ensures KeysOf(papers + [p]) == KeysOf(papers) + {DedupKey(p)}
  {
    var q := papers + [p];
    assert forall k :: 0 <= k < |papers| ==> q[k] == papers[k];
    assert q[|papers|] == p;
  }

  lemma KeysOfLast(papers: seq<Retrieved>)
    requires papers != []
    ensures KeysOf(papers) == KeysOf(papers[..|papers| - 1]) + {DedupKey(papers[|papers| - 1])}
  {
    KeysOfSnoc(papers[..|papers| - 1], papers[|papers| - 1]);
    assert papers == papers[..|papers| - 1] + [papers[|papers| - 1]];
  }

  /** `_deduplicate_papers`. */
  method DeduplicatePapers(papers: seq<Retrieved>) returns (unique: seq<Retrieved>)
    ensures unique == Dedup(papers)
  {
    var seen: set<string> := {};
    unique := [];
    for i := 0 to |papers|
      invariant unique == Dedup(papers[..i])
      invariant seen == KeysOf(unique)
    {
      assert papers[..i + 1][..i] == papers[..i];
      var paper := papers[i];
      var title := Strip(Lower(paper.title));
      var firstAuthor := if |paper.authors| > 0 then Strip(Lower(paper.authors[0])) else "";
      var identifier := title + "_" + firstAuthor;
      if identifier !in seen {
        seen := seen + {identifier};
        KeysOfSnoc(unique, paper);
        unique := unique + [paper];
      }
    }
    assert papers[..|papers|] == papers;
  }

  predicate DistinctKeys(papers: seq<Retrieved>) {
    forall i, j :: 0 <= i < j < |papers| ==> DedupKey(papers[i]) != DedupKey(papers[j])
  }

  /** No two kept papers share a key, and the keys kept are all the keys. */
  lemma {:induction false} DedupDistinct(papers: seq<Retrieved>)
    ensures DistinctKeys(Dedup(papers))
    ensures KeysOf(Dedup(papers)) == KeysOf(papers)
    decreases |papers|
  {
    if papers != [] {
      var front, last := papers[..|papers| - 1], papers[|papers| - 1];
      DedupDistinct(front);
      KeysOfLast(papers);
      var kept := Dedup(front);
      assert Dedup(papers) == if DedupKey(last) in KeysOf(kept) then kept else kept + [last];
      if DedupKey(last) !in KeysOf(kept) {
        KeysOfSnoc(kept, last);
        DistinctKeysSnoc(kept, last);
      }
    }
  }

  /** Appending a paper with a new key keeps the keys distinct. */
  lemma DistinctKeysSnoc(kept: seq<Retrieved>, last: Retrieved)
    requires DistinctKeys(kept) && DedupKey(last) !in KeysOf(kept)
    ensures DistinctKeys(kept + [last])
  {
    var q := kept + [last];
    forall i, j | 0 <= i < j < |q| ensures DedupKey(q[i]) != DedupKey(q[j]) {
      assert q[i] == kept[i];
      if j < |kept| {
        assert q[j] == kept[j];
      } else {
        assert DedupKey(kept[i]) in KeysOf(kept);
      }
    }
  }

  /** `a` is `b` with some elements left out, the rest in their order. */
  predicate Subsequence(a: seq<Retrieved>, b: seq<Retrieved>)
    decreases |b|
  {
    if a == [] then true
    else if b == [] then false
    else (a[|a| - 1] == b[|b| - 1] && Subsequence(a[..|a| - 1], b[..|b| - 1])) || Subsequence(a, b[..|b| - 1])
  }

  lemma {:induction false} DedupSubsequence(papers: seq<Retrieved>)
    ensures Subsequence(Dedup(papers), papers)
    decreases |papers|
  {
    if papers != [] {
      var front := papers[..|papers| - 1];
      DedupSubsequence(front);
      var kept := Dedup(front);
      if DedupKey(papers[|papers| - 1]) !in KeysOf(kept) {
        var r := kept + [papers[|papers| - 1]];
        assert r[..|r| - 1] == kept;
      }
    }
  }

  /** `papers[i]` is the first paper of `papers` with its key. */
  predicate FirstWithKey(papers: seq<Retrieved>, i: int) {
    0 <= i < |papers| && forall j :: 0 <= j < i ==> DedupKey(papers[j]) != DedupKey(papers[i])
  }

  /** Every paper in the output is the first of the input with its key. */
  lemma {:induction false} DedupKeepsFirst(papers: seq<Retrieved>)
    ensures forall x :: x in Dedup(papers) ==> exists i :: FirstWithKey(papers, i) && papers[i] == x
    decreases |papers|
  {
    if papers != [] {
      var n := |papers| - 1;
      var front := papers[..n];
      DedupKeepsFirst(front);
      forall x | x in Dedup(papers) ensures exists i :: FirstWithKey(papers, i) && papers[i] == x {
        if x in Dedup(front) {
          var i :| FirstWithKey(front, i) && front[i] == x;
          FirstWithKeyExtends(papers, n, i);
        } else {
          assert DedupKey(papers[n]) !in KeysOf(Dedup(front)) && x == papers[n];
          DedupLastIsFirst(papers);
        }
      }
    }
  }

  /** Conversely, the first paper with each key is kept. */
  lemma {:induction false} DedupKeepsEveryFirst(papers: seq<Retrieved>, i: int)
    requires FirstWithKey(papers, i)
    ensures papers[i] in Dedup(papers)
    decreases |papers|
  {
    var n := |papers| - 1;
    var front, kept := papers[..n], Dedup(papers[..n]);
    assert Dedup(papers) == if DedupKey(papers[n]) in KeysOf(kept) then kept else kept + [papers[n]];
    if i < n {
      FirstWithKeyOfFront(papers, i);
      DedupKeepsEveryFirst(front, i);
      assert papers[i] in kept;
    } else {
      NewKeyNotKept(papers);
      assert Dedup(papers) == kept + [papers[n]];
      assert Dedup(papers)[|kept|] == papers[i];
    }
  }

  lemma FirstWithKeyOfFront(papers: seq<Retrieved>, i: int)
    requires FirstWithKey(papers, i) && i < |papers| - 1
    ensures FirstWithKey(papers[..|papers| - 1], i) && papers[..|papers| - 1][i] == papers[i]
  {
    var front := papers[..|papers| - 1];
    assert forall j :: 0 <= j <= i ==> front[j] == papers[j];
  }

  /** A last paper whose key no earlier paper has is not among the kept keys. */
  lemma NewKeyNotKept(papers: seq<Retrieved>)
    requires FirstWithKey(papers, |papers| - 1)
    ensures DedupKey(papers[|papers| - 1]) !in KeysOf(Dedup(papers[..|papers| - 1]))
  {
    var n := |papers| - 1;
    var front, kept := papers[..n], Dedup(papers[..n]);
    DedupSubsequenceMembers(front);
    forall k | 0 <= k < |kept| ensures DedupKey(kept[k]) != DedupKey(papers[n]) {
      assert kept[k] in front;
      var j :| 0 <= j < n && front[j] == kept[k];
      assert papers[j] == front[j];
    }
  }

  lemma FirstWithKeyExtends(papers: seq<Retrieved>, n: nat, i: int)
    requires n <= |papers| && FirstWithKey(papers[..n], i)
    ensures FirstWithKey(papers, i) && papers[i] == papers[..n][i]
  {
    assert forall j :: 0 <= j < i ==> papers[j] == papers[..n][j];
  }

  /** A last paper that is kept has a key no earlier paper has. */
  lemma DedupLastIsFirst(papers: seq<Retrieved>)
    requires |papers| > 0
    requires DedupKey(papers[|papers| - 1]) !in KeysOf(Dedup(papers[..|papers| - 1]))
    ensures FirstWithKey(papers, |papers| - 1)
  {
    var n := |papers| - 1;
    var front := papers[..n];
    DedupDistinct(front);
    forall j | 0 <= j < n ensures DedupKey(papers[j]) != DedupKey(papers[n]) {
      assert DedupKey(front[j]) in KeysOf(front);
    }
  }

  /** A list whose keys are already distinct is returned unchanged. */
  lemma {:induction false} DedupOfDistinct(papers: seq<Retrieved>)
    requires DistinctKeys(papers)
    ensures Dedup(papers) == papers
    decreases |papers|
  {
    if papers != [] {
      var n := |papers| - 1;
      DistinctKeysFront(papers);
      DedupOfDistinct(papers[..n]);
    }
  }

  /** Dropping the last paper keeps the keys distinct, and the last key is new. */
  lemma DistinctKeysFront(papers: seq<Retrieved>)
    requires papers != [] && DistinctKeys(papers)
    ensures DistinctKeys(papers[..|papers| - 1])
    ensures DedupKey(papers[|papers| - 1]) !in KeysOf(papers[..|papers| - 1])
  {
    var n := |papers| - 1;
    var front := papers[..n];
    assert forall k :: 0 <= k < n ==> front[k] == papers[k];
    assert forall k :: 0 <= k < n ==> DedupKey(front[k]) != DedupKey(papers[n]);
  }

  /** Deduplication is idempotent. */
  lemma DedupIdempotent(papers: seq<Retrieved>)
    ensures Dedup(Dedup(papers)) == Dedup(papers)
  {
    DedupDistinct(papers);
    DedupOfDistinct(Dedup(papers));
  }

  // ---------------------------------------------------------------------------
  // Merging the per-source results

  /** The sources the agent can search, in the order of its table. */
  const KnownSources: seq<string> := ["semantic_scholar", "crossref", "openalex", "pubmed", "arxiv"]

  /** The requested sources the agent knows, in request order. */
  function KnownOnly(sources: seq<string>): (r: seq<string>)
    ensures |r| <= |sources|
    ensures forall x :: x in r <==> x in sources && x in KnownSources
    decreases |sources|
  {
    if sources == [] then []
    else
      var front := KnownOnly(sources[..|sources| - 1]);
      var last := sources[|sources| - 1];
      assert forall x :: x in sources <==> x in sources[..|sources| - 1] || x == last;
      if last in KnownSources then front + [last] else front
  }

  /** Each source paired with the same limit. */
  function WithLimit(known: seq<string>, limit: int): (plan: seq<(string, int)>)
    ensures |plan| == |known|
    ensures forall k :: 0 <= k < |plan| ==> plan[k] == (known[k], limit)
  {
    seq(|known|, k requires 0 <= k < |known| => (known[k], limit))
  }

  /** The searches started: each known requested source with the limit
      `max_papers // len(sources_to_search)`. */
  function SearchPlan(sources: seq<string>, maxPapers: int): seq<(string, int)> {
    if |sources| == 0 then [] else WithLimit(KnownOnly(sources), maxPapers / |sources|)
  }

  /** The loop that starts one search per known source. */
  method PlanSearches(sources: seq<string>, maxPapers: int) returns (plan: seq<(string, int)>)
    ensures plan == SearchPlan(sources, maxPapers)
  {
    plan := [];
    for i := 0 to |sources|
      invariant plan == if |sources| == 0 then [] else WithLimit(KnownOnly(sources[..i]), maxPapers / |sources|)
    {
      KnownOnlyStep(sources, i);
      var source := sources[i];
      if source in KnownSources {
        WithLimitSnoc(KnownOnly(sources[..i]), source, maxPapers / |sources|);
        plan := plan + [(source, maxPapers / |sources|)];
      }
    }
    assert sources[..|sources|] == sources;
  }

  lemma KnownOnlyStep(sources: seq<string>, i: nat)
    requires i < |sources|
    ensures KnownOnly(sources[..i + 1]) ==
      if sources[i] in KnownSources then KnownOnly(sources[..i]) + [sources[i]] else KnownOnly(sources[..i])
  {
    assert sources[..i + 1][..i] == sources[..i];
  }

  lemma WithLimitSnoc(known: seq<string>, source: string, limit: int)
    ensures WithLimit(known + [source], limit) == WithLimit(known, limit) + [(source, limit)]
  {
  }

  predicate Searched(plan: seq<(string, int)>, source: string) {
    exists k :: 0 <= k < |plan| && plan[k].0 == source
  }

  /** The searches cover exactly the known requested sources, and for a
      non-negative `max_papers` their limits add up to at most `max_papers`. */
  lemma SearchPlanBudget(sources: seq<string>, maxPapers: int)
    ensures forall x :: Searched(SearchPlan(sources, maxPapers), x) <==> x in sources && x in KnownSources
    ensures maxPapers >= 0 && |sources| > 0 ==>
      |SearchPlan(sources, maxPapers)| * (maxPapers / |sources|) <= maxPapers
  {
    SearchPlanSources(sources, maxPapers);
    if maxPapers >= 0 && |sources| > 0 {
      var limit := maxPapers / |sources|;
      assert |SearchPlan(sources, maxPapers)| <= |sources|;
      MulMonotone(|SearchPlan(sources, maxPapers)|, |sources|, limit);
      DivMulBound(maxPapers, |sources|);
    }
  }

  /** Kept apart so that the nonlinear facts are proved without the plan's
      other facts in scope. */
  lemma MulMonotone(a: nat, b: nat, c: nat)
    requires a <= b
    ensures a * c <= b * c
  {
  }

  /** `n * (m // n) <= m` for a non-negative `m` and a positive `n`. */
  lemma DivMulBound(m: nat, n: nat)
    requires n > 0
    ensures n * (m / n) <= m
  {
  }

  /** The searched sources are the known requested ones. */
  lemma SearchPlanSources(sources: seq<string>, maxPapers: int)
    ensures forall x :: Searched(SearchPlan(sources, maxPapers), x) <==> x in sources && x in KnownSources
  {
    var plan := SearchPlan(sources, maxPapers);
    var known := KnownOnly(sources);
    forall x ensures Searched(plan, x) <==> x in sources && x in KnownSources {
      if x in sources && x in KnownSources {
        assert x in known;
        var k :| 0 <= k < |known| && known[k] == x;
        assert plan[k].0 == x;
      }
    }
  }

  /** What one search gives back: its papers, or an exception. */
  datatype SearchResult = Found(papers: seq<Retrieved>) | Raised

  /** `all_papers`: the papers of the successful searches, in result order. */
  function Flatten(results: seq<SearchResult>): seq<Retrieved>
    decreases |results|
  {
    if results == [] then []
    else
      var front := Flatten(results[..|results| - 1]);
      match results[|results| - 1]
      case Found(papers) => front + papers
      case Raised => front
  }

  /** A paper is merged exactly when some successful search returned it. */
  lemma {:induction false} FlattenMembers(results: seq<SearchResult>)
    ensures forall p :: p in Flatten(results) <==>
      exists i :: 0 <= i < |results| && results[i].Found? && p in results[i].papers
    decreases |results|
  {
    if results != [] {
      var n := |results| - 1;
      FlattenMembers(results[..n]);
      assert forall i :: 0 <= i < n ==> results[..n][i] == results[i];
    }
  }

  function RetrievedScore(p: Retrieved): seq<int> {
    [p.relevanceScore]
  }

  /** The papers after scoring, element by element: `score` stands for
      `_score_papers`. What scoring keeps is stated by `ScoredKeys` and
      `ScoredFrom`. */
  function Scored(papers: seq<Retrieved>, score: Retrieved -> int): (r: seq<Retrieved>)
    ensures |r| == |papers|
    ensures forall k :: 0 <= k < |r| ==> r[k] == papers[k].(relevanceScore := score(papers[k]))
  {
    seq(|papers|, k requires 0 <= k < |papers| => papers[k].(relevanceScore := score(papers[k])))
  }

  /** `_score_papers` divides by the number of distinct topic words and calls
      `.lower()` on every abstract, so it raises, and `retrieve_papers` returns
      `[]`, as soon as there is a paper to score and the topic has no words, or
      some paper's abstract is not a string. */
  predicate ScoringRaises(papers: seq<Retrieved>, topic: string) {
    && |papers| > 0
    && (Words(Lower(topic)) == [] || exists k :: 0 <= k < |papers| && papers[k].abstractText.None?)
  }

  /** The tail of `retrieve_papers`. */
  function MergeResults(results: seq<SearchResult>, topic: string, maxPapers: int, score: Retrieved -> int): seq<Retrieved> {
    var unique := Dedup(Flatten(results));
    if ScoringRaises(unique, topic) then []
    else TopDesc(Scored(unique, score), RetrievedScore, maxPapers)
  }

  method RetrievePapers(results: seq<SearchResult>, topic: string, maxPapers: int, score: Retrieved -> int)
    returns (finalPapers: seq<Retrieved>)
    ensures finalPapers == MergeResults(results, topic, maxPapers, score)
  {
    var allPapers: seq<Retrieved> := [];
    for i := 0 to |results|
      invariant allPapers == Flatten(results[..i])
    {
      assert results[..i + 1][..i] == results[..i];
      if results[i].Found? {
        allPapers := allPapers + results[i].papers;
      }
    }
    assert results[..|results|] == results;
    var unique := DeduplicatePapers(allPapers);
    if ScoringRaises(unique, topic) {
      return [];
    }
    var scored := Scored(unique, score);
    finalPapers := Prefix(SortDesc(scored, RetrievedScore), maxPapers);
  }

  /** Scoring leaves the deduplication keys alone. */
  lemma ScoredKeys(papers: seq<Retrieved>, score: Retrieved -> int)
    requires DistinctKeys(papers)
    ensures DistinctKeys(Scored(papers, score))
  {
    var r := Scored(papers, score);
    assert forall k :: 0 <= k < |r| ==> DedupKey(r[k]) == DedupKey(papers[k]);
  }

  lemma CountTwo(r: seq<Retrieved>, i: nat, j: nat)
    requires i < j < |r| && r[i] == r[j]
    ensures multiset(r)[r[i]] >= 2
  {
    assert r == r[..j] + r[j..];
    assert r[i] in r[..j];
    assert r[j] in r[j..];
    assert multiset(r) == multiset(r[..j]) + multiset(r[j..]);
  }

  lemma TwoIndices(s: seq<Retrieved>, x: Retrieved)
    requires multiset(s)[x] >= 2
    ensures exists a, b :: 0 <= a < b < |s| && s[a] == x && s[b] == x
  {
    assert x in s;
    var a :| 0 <= a < |s| && s[a] == x;
    assert s == s[..a] + [x] + s[a + 1..];
    assert multiset(s) == multiset(s[..a]) + multiset{x} + multiset(s[a + 1..]);
    if x in s[..a] {
      var b :| 0 <= b < a && s[..a][b] == x;
      assert s[b] == x;
    } else {
      assert x in s[a + 1..];
      var b :| 0 <= b < |s[a + 1..]| && s[a + 1..][b] == x;
      assert s[a + 1 + b] == x;
    }
  }

  /** A selection from a list with distinct keys has distinct keys. */
  lemma SubMultisetDistinct(r: seq<Retrieved>, s: seq<Retrieved>)
    requires multiset(r) <= multiset(s) && DistinctKeys(s)
    ensures DistinctKeys(r)
  {
    forall i, j | 0 <= i < j < |r| ensures DedupKey(r[i]) != DedupKey(r[j]) {
      if r[i] == r[j] {
        CountTwo(r, i, j);
        TwoIndices(s, r[i]);
      } else {
        assert r[i] in multiset(s) && r[j] in multiset(s);
        var a :| 0 <= a < |s| && s[a] == r[i];
        var b :| 0 <= b < |s| && s[b] == r[j];
      }
    }
  }

  /** The final list: at most `max_papers` papers, non-increasing in score,
      no two with the same key, each a scored paper some successful search
      returned. */
  lemma MergeResultsProperties(results: seq<SearchResult>, topic: string, maxPapers: int, score: Retrieved -> int)
    ensures var r := MergeResults(results, topic, maxPapers, score);
      && (maxPapers >= 0 ==> |r| <= maxPapers)
      && (forall i, j :: 0 <= i < j < |r| ==> r[i].relevanceScore >= r[j].relevanceScore)
      && DistinctKeys(r)
      && (forall x :: x in r ==> exists p :: p in Flatten(results) && x == p.(relevanceScore := score(p)))
  {
    var unique := Dedup(Flatten(results));
    if !ScoringRaises(unique, topic) {
      var scored := Scored(unique, score);
      var r := TopDesc(scored, RetrievedScore, maxPapers);
      TopDescProperties(scored, RetrievedScore, maxPapers);
      ScoresDescending(r);
      DedupDistinct(Flatten(results));
      ScoredKeys(unique, score);
      SubMultisetDistinct(r, scored);
      ScoredFrom(r, Flatten(results), score);
    }
  }

  /** One paper that is the first with its key and whose abstract is no string
      (an OpenAlex paper with an inverted index, say) makes scoring raise, so
      the final list is empty whatever the other sources returned. */
  lemma NonTextAbstractEmptiesResult(results: seq<SearchResult>, topic: string, maxPapers: int,
                                     score: Retrieved -> int, i: int)
    requires FirstWithKey(Flatten(results), i) && Flatten(results)[i].abstractText.None?
    ensures MergeResults(results, topic, maxPapers, score) == []
  {
    var unique := Dedup(Flatten(results));
    DedupKeepsEveryFirst(Flatten(results), i);
    var k :| 0 <= k < |unique| && unique[k] == Flatten(results)[i];
    assert ScoringRaises(unique, topic);
  }

  /** With words in the topic and text abstracts only, the list is cut only by
      `max_papers`. */
  lemma MergeResultsLength(results: seq<SearchResult>, topic: string, maxPapers: int, score: Retrieved -> int)
    requires Words(Lower(topic)) != [] && maxPapers >= 0
    requires forall p :: p in Flatten(results) ==> p.abstractText.Some?
    ensures var unique := Dedup(Flatten(results));
      |MergeResults(results, topic, maxPapers, score)| == if maxPapers < |unique| then maxPapers else |unique|
  {
    var unique := Dedup(Flatten(results));
    DedupSubsequenceMembers(Flatten(results));
    assert !ScoringRaises(unique, topic) by {
      assert forall k :: 0 <= k < |unique| ==> unique[k] in Flatten(results);
    }
    TopDescProperties(Scored(unique, score), RetrievedScore, maxPapers);
  }

  /** Keys in non-increasing order mean scores in non-increasing order. */
  lemma ScoresDescending(r: seq<Retrieved>)
    requires SortedDesc(r, RetrievedScore)
    ensures forall i, j :: 0 <= i < j < |r| ==> r[i].relevanceScore >= r[j].relevanceScore
  {
    forall i, j | 0 <= i < j < |r| ensures r[i].relevanceScore >= r[j].relevanceScore {
      assert !LexLess(RetrievedScore(r[i]), RetrievedScore(r[j]));
      LexLessSingleton(r[i].relevanceScore, r[j].relevanceScore);
    }
  }

  /** Whatever is taken from the scored unique papers is an input paper with its new score. */
  lemma ScoredFrom(r: seq<Retrieved>, papers: seq<Retrieved>, score: Retrieved -> int)
    requires multiset(r) <= multiset(Scored(Dedup(papers), score))
    ensures forall x :: x in r ==> exists p :: p in papers && x == p.(relevanceScore := score(p))
  {
    var unique := Dedup(papers);
    var scored := Scored(unique, score);
    DedupSubsequenceMembers(papers);
    forall x | x in r ensures exists p :: p in papers && x == p.(relevanceScore := score(p)) {
      assert x in multiset(scored);
      var k :| 0 <= k < |scored| && scored[k] == x;
      assert unique[k] in papers;
    }
  }

  /** Deduplication keeps only papers of its input. */
  lemma DedupSubsequenceMembers(papers: seq<Retrieved>)
    ensures forall x :: x in Dedup(papers) ==> x in papers
  {
    DedupKeepsFirst(papers);
  }
}
