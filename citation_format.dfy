/** The four citation styles of the citation agent, its style dispatcher, and the
    two list builders that apply them (formatted citations per style, bibliography).

    Each style exists twice: a function that states the layout as a sequence of
    segments (`ApaCitation`, ...), and a method that builds the string by
    successive appends under guards, as the agent does (`FormatApa`, ...), proved
    equal to it. `None` stands for the `IndexError` that `authors[-1]` raises on an
    empty author list. */
module CitationFormat {
  import opened Wrappers
  import opened Text
  import opened Sorting

  /** A paper record as the agents hand it around. A string field that is absent
      from the record reads `""`, a list field `[]`, a number `0`. */
  datatype Paper = Paper(
    id: string,
    title: string,
    authors: seq<string>,
    journal: string,
    year: string,
    volume: string,
    issue: string,
    pages: string,
    doi: string,
    url: string,
    abstractText: string,
    publishedDate: string,
    keywords: seq<string>,
    relevanceScore: int,
    citationsCount: int)

  // ---------------------------------------------------------------------------
  // Author lists

  /** Every element followed by `sep`: an independent reading of `Join`. */
  function Terminated(parts: seq<string>, sep: string): string
    decreases |parts|
  {
    if parts == [] then "" else parts[0] + sep + Terminated(parts[1..], sep)
  }

  lemma {:induction false} JoinTerminated(parts: seq<string>, sep: string)
    requires |parts| > 0
    ensures Join(sep, parts) + sep == Terminated(parts, sep)
    decreases |parts|
  {
    if |parts| > 1 {
      JoinTerminated(parts[1..], sep);
    }
  }

  /** APA: one author as is; up to seven with `", & "` before the last; more
      than seven as the first six, `", ... "` and the last. */
  function ApaAuthors(authors: seq<string>): (r: Option<string>)
    ensures r.None? <==> |authors| == 0
  {
    var n := |authors|;
    if n == 0 then None
    else if n == 1 then Some(authors[0])
    else if n <= 7 then Some(Join(", ", authors[..n - 1]) + ", & " + authors[n - 1])
    else Some(Join(", ", authors[..6]) + ", ... " + authors[n - 1])
  }

  /** The APA rule read the other way round: each listed author but the last is
      followed by `", "`, then comes `"& "` (or `"... "`) and the last author. */
  lemma ApaAuthorsShape(authors: seq<string>)
    requires |authors| >= 2
    ensures |authors| <= 7 ==>
      ApaAuthors(authors) == Some(Terminated(authors[..|authors| - 1], ", ") + "& " + authors[|authors| - 1])
    ensures |authors| > 7 ==>
      ApaAuthors(authors) == Some(Terminated(authors[..6], ", ") + "... " + authors[|authors| - 1])
  {
    var n, last := |authors|, authors[|authors| - 1];
    if n <= 7 {
      var j := Join(", ", authors[..n - 1]);
      JoinTerminated(authors[..n - 1], ", ");
      assert j + ", & " + last == (j + ", ") + "& " + last by {
        assert ", & " == ", " + "& ";
      }
    } else {
      var j := Join(", ", authors[..6]);
      JoinTerminated(authors[..6], ", ");
      assert j + ", ... " + last == (j + ", ") + "... " + last by {
        assert ", ... " == ", " + "... ";
      }
    }
  }

  /** MLA and Chicago: one author as is, otherwise `", and "` before the last. */
  function AndAuthors(authors: seq<string>): (r: Option<string>)
    ensures r.None? <==> |authors| == 0
  {
    var n := |authors|;
    if n == 0 then None
    else if n == 1 then Some(authors[0])
    else Some(Join(", ", authors[..n - 1]) + ", and " + authors[n - 1])
  }

  lemma AndAuthorsShape(authors: seq<string>)
    requires |authors| >= 2
    ensures AndAuthors(authors) == Some(Terminated(authors[..|authors| - 1], ", ") + "and " + authors[|authors| - 1])
  {
    var j, last := Join(", ", authors[..|authors| - 1]), authors[|authors| - 1];
    JoinTerminated(authors[..|authors| - 1], ", ");
    assert j + ", and " + last == (j + ", ") + "and " + last by {
      assert ", and " == ", " + "and ";
    }
  }

  /** IEEE: up to six authors all joined by `", "`, more than six as the first
      three and `" et al."`. Total: no authors give the empty string. */
  function IeeeAuthors(authors: seq<string>): string {
    var n := |authors|;
    if n == 1 then authors[0]
    else if n <= 6 then Join(", ", authors)
    else Join(", ", authors[..3]) + " et al."
  }

  lemma IeeeAuthorsShape(authors: seq<string>)
    requires |authors| <= 6
    ensures |authors| == 0 ==> IeeeAuthors(authors) == ""
    ensures |authors| > 0 ==> IeeeAuthors(authors) + ", " == Terminated(authors, ", ")
  {
    if |authors| > 0 {
      JoinTerminated(authors, ", ");
    }
  }

  lemma IeeeAuthorsEtAl(authors: seq<string>)
    requires |authors| > 6
    ensures IeeeAuthors(authors) == authors[0] + ", " + authors[1] + ", " + authors[2] + " et al."
  {
    var first := authors[..3];
    assert first[1..] == [authors[1], authors[2]];
    assert first[1..][1..] == [authors[2]];
    assert Join(", ", first[1..][1..]) == authors[2];
    assert Join(", ", first[1..]) == authors[1] + ", " + authors[2];
    assert Join(", ", first) == authors[0] + ", " + (authors[1] + ", " + authors[2]);
  }

  // ---------------------------------------------------------------------------
  // The four layouts

  /** `" https://doi.org/<doi>"`, or nothing when there is no DOI. */
  function DoiLink(doi: string): string {
    if doi == "" then "" else " https://doi.org/" + doi
  }

  function ApaSource(p: Paper): string {
    if p.journal == "" then ""
    else (p.journal
      + (if p.volume == "" then "" else ", " + p.volume)
      + (if p.pages == "" then "" else ", " + p.pages))
  }

  /** `<authors> (<year>). <title>. <journal>, <volume>, <pages> https://doi.org/<doi>` */
  function ApaCitation(p: Paper): Option<string> {
    match ApaAuthors(p.authors)
    case None => None
    case Some(a) => Some(a + " (" + p.year + "). " + p.title + ". " + ApaSource(p) + DoiLink(p.doi))
  }

  function MlaSource(p: Paper): string {
    if p.journal == "" then ""
    else (p.journal
      + (if p.volume == "" then "" else ", vol. " + p.volume)
      + (if p.pages == "" then ", " + p.year else ", " + p.year + ", pp. " + p.pages))
  }

  /** `<authors>. "<title>." <journal>, vol. <volume>, <year>, pp. <pages>` (no DOI). */
  function MlaCitation(p: Paper): Option<string> {
    match AndAuthors(p.authors)
    case None => None
    case Some(a) => Some(a + ". \"" + p.title + ".\" " + MlaSource(p))
  }

  function ChicagoSource(p: Paper): string {
    if p.journal == "" then ""
    else (p.journal
      + (if p.volume == "" then "" else " " + p.volume)
      + (if p.pages == "" then " (" + p.year + ")" else ", no. " + p.issue + " (" + p.year + "): " + p.pages))
  }

  /** `<authors>. "<title>." <journal> <volume>, no. <issue> (<year>): <pages> https://doi.org/<doi>` */
  function ChicagoCitation(p: Paper): Option<string> {
    match AndAuthors(p.authors)
    case None => None
    case Some(a) => Some(a + ". \"" + p.title + ".\" " + ChicagoSource(p) + DoiLink(p.doi))
  }

  function IeeeSource(p: Paper): string {
    if p.journal == "" then ""
    else (p.journal
      + (if p.volume == "" then "" else ", vol. " + p.volume)
      + (if p.pages == "" then "" else ", pp. " + p.pages)
      + ", " + p.year)
  }

  /** `<authors>, "<title>," <journal>, vol. <volume>, pp. <pages>, <year>` */
  function IeeeCitation(p: Paper): string {
    IeeeAuthors(p.authors) + ", \"" + p.title + ",\" " + IeeeSource(p)
  }

  /** The style dispatcher: a style outside the four known names is formatted as APA. */
  function Citation(p: Paper, style: string): Option<string> {
    if style == "mla" then MlaCitation(p)
    else if style == "chicago" then ChicagoCitation(p)
    else if style == "ieee" then Some(IeeeCitation(p))
    else ApaCitation(p)
  }

  // ---------------------------------------------------------------------------
  // Properties of the layouts

  /** Only IEEE formats a paper without authors; the other styles fail on it. */
  lemma CitationFailsOnlyWithoutAuthors(p: Paper, style: string)
    ensures Citation(p, style).None? <==> (|p.authors| == 0 && style != "ieee")
  {
  }

  /** Unknown styles fall back to APA. */
  lemma UnknownStyleIsApa(p: Paper, style: string)
    requires style !in {"apa", "mla", "chicago", "ieee"}
    ensures Citation(p, style) == ApaCitation(p)
  {
  }

  /** APA begins with authors, year and title; a DOI, when present, closes it. */
  lemma ApaLayout(p: Paper)
    requires |p.authors| > 0
    ensures ApaCitation(p).Some?
    ensures ApaAuthors(p.authors).value + " (" + p.year + "). " + p.title + ". " <= ApaCitation(p).value
    ensures p.doi != "" ==> ApaCitation(p).value[|ApaCitation(p).value| - |p.doi| - 17..] == " https://doi.org/" + p.doi
    ensures p.journal == "" && p.doi == "" ==>
      ApaCitation(p).value == ApaAuthors(p.authors).value + " (" + p.year + "). " + p.title + ". "
  {
  }

  /** Without a journal, volume, pages and issue leave every style unchanged. */
  lemma NoJournalIgnoresDetails(p: Paper, volume: string, issue: string, pages: string, style: string)
    requires p.journal == ""
    ensures Citation(p.(volume := volume, issue := issue, pages := pages), style) == Citation(p, style)
  {
  }

  /** MLA and IEEE never print the DOI; the year appears only inside the journal block. */
  lemma MlaIeeeIgnoreDoi(p: Paper, doi: string)
    ensures MlaCitation(p.(doi := doi)) == MlaCitation(p)
    ensures IeeeCitation(p.(doi := doi)) == IeeeCitation(p)
    ensures p.journal == "" ==> forall y :: MlaCitation(p.(year := y)) == MlaCitation(p)
  {
  }

  /** Chicago prints the issue only together with pages. */
  lemma ChicagoIssueNeedsPages(p: Paper, issue: string)
    requires p.pages == ""
    ensures ChicagoCitation(p.(issue := issue)) == ChicagoCitation(p)
  {
  }

  /** The worked example: two authors, year 2021, title X, journal J, volume 5, pages 1-10. */
  function ExamplePaper(): Paper {
    Paper("", "X", ["A Smith", "B Lee"], "J", "2021", "5", "", "1-10", "", "", "", "", [], 0, 0)
  }

  /** The expected texts below are written piece by piece: the fields of
      `ExamplePaper` between the fixed punctuation of each layout. */
  lemma ExampleApa()
    ensures ApaCitation(ExamplePaper()) ==
      Some("A Smith" + ", & " + "B Lee" + " (" + "2021" + "). " + "X" + ". " + "J" + ", " + "5" + ", " + "1-10")
  {
    var a := ExamplePaper().authors;
    assert a[..1] == ["A Smith"];
    assert ApaAuthors(a) == Some("A Smith" + ", & " + "B Lee");
    assert ApaSource(ExamplePaper()) == "J" + ", " + "5" + ", " + "1-10";
    assert ApaCitation(ExamplePaper()).value ==
      "A Smith" + ", & " + "B Lee" + " (" + "2021" + "). " + "X" + ". " + "J" + ", " + "5" + ", " + "1-10";
  }

  lemma ExampleIeee()
    ensures IeeeCitation(ExamplePaper()) ==
      "A Smith" + ", " + "B Lee" + ", \"" + "X" + ",\" " + "J" + ", vol. " + "5" + ", pp. " + "1-10" + ", " + "2021"
  {
    var a := ExamplePaper().authors;
    assert a[1..] == ["B Lee"];
    assert IeeeAuthors(a) == "A Smith" + ", " + "B Lee";
  }

  lemma ExampleAndAuthors()
    ensures AndAuthors(ExamplePaper().authors) == Some("A Smith" + ", and " + "B Lee")
  {
    var a := ExamplePaper().authors;
    assert a[..1] == ["A Smith"];
  }

  lemma ExampleMla()
    ensures MlaCitation(ExamplePaper()) ==
      Some("A Smith" + ", and " + "B Lee" + ". \"" + "X" + ".\" " + "J" + ", vol. " + "5" + ", " + "2021" + ", pp. " + "1-10")
  {
    ExampleAndAuthors();
    assert MlaSource(ExamplePaper()) == "J" + ", vol. " + "5" + ", " + "2021" + ", pp. " + "1-10";
    assert MlaCitation(ExamplePaper()).value ==
      "A Smith" + ", and " + "B Lee" + ". \"" + "X" + ".\" " + "J" + ", vol. " + "5" + ", " + "2021" + ", pp. " + "1-10";
  }

  /** The empty issue is printed between `no.` and the year. */
  lemma ExampleChicago()
    ensures ChicagoCitation(ExamplePaper()) ==
      Some("A Smith" + ", and " + "B Lee" + ". \"" + "X" + ".\" " + "J" + " " + "5" + ", no. " + "" + " (" + "2021" + "): " + "1-10")
  {
    ExampleAndAuthors();
    assert ChicagoSource(ExamplePaper()) == "J" + " " + "5" + ", no. " + "" + " (" + "2021" + "): " + "1-10";
    assert ChicagoCitation(ExamplePaper()).value ==
      "A Smith" + ", and " + "B Lee" + ". \"" + "X" + ".\" " + "J" + " " + "5" + ", no. " + "" + " (" + "2021" + "): " + "1-10";
  }

  // ---------------------------------------------------------------------------
  // The formatters as the agent writes them

  method FormatApa(p: Paper) returns (citation: Option<string>)
    ensures citation == ApaCitation(p)
  {
    var authorStr := ApaAuthors(p.authors);
    if authorStr.None? {
      return None;
    }
    var c := authorStr.value + " (" + p.year + "). " + p.title + ". ";
    ghost var head := c;
    if p.journal != "" {
      c := c + p.journal;
      if p.volume != "" {
        c := c + (", " + p.volume);
      }
      if p.pages != "" {
        c := c + (", " + p.pages);
      }
    }
    assert c == head + ApaSource(p);
    if p.doi != "" {
      c := c + (" https://doi.org/" + p.doi);
    }
    assert c == head + ApaSource(p) + DoiLink(p.doi);
    citation := Some(c);
  }

  method FormatMla(p: Paper) returns (citation: Option<string>)
    ensures citation == MlaCitation(p)
  {
    var authorStr := AndAuthors(p.authors);
    if authorStr.None? {
      return None;
    }
    var c := authorStr.value + ". \"" + p.title + ".\" ";
    ghost var head := c;
    if p.journal != "" {
      c := c + p.journal;
      if p.volume != "" {
        c := c + (", vol. " + p.volume);
      }
      if p.pages != "" {
        c := c + (", " + p.year + ", pp. " + p.pages);
      } else {
        c := c + (", " + p.year);
      }
    }
    assert c == head + MlaSource(p);
    citation := Some(c);
  }

  method FormatChicago(p: Paper) returns (citation: Option<string>)
    ensures citation == ChicagoCitation(p)
  {
    var authorStr := AndAuthors(p.authors);
    if authorStr.None? {
      return None;
    }
    var c := authorStr.value + ". \"" + p.title + ".\" ";
    ghost var head := c;
    if p.journal != "" {
      c := c + p.journal;
      if p.volume != "" {
        c := c + (" " + p.volume);
      }
      if p.pages != "" {
        c := c + (", no. " + p.issue + " (" + p.year + "): " + p.pages);
      } else {
        c := c + (" (" + p.year + ")");
      }
    }
    ghost var withSource := c;
    assert withSource == head + ChicagoSource(p);
    if p.doi != "" {
      c := c + (" https://doi.org/" + p.doi);
    }
    assert c == withSource + DoiLink(p.doi);
    citation := Some(c);
  }

  method FormatIeee(p: Paper) returns (citation: string)
    ensures citation == IeeeCitation(p)
  {
    var authorStr := IeeeAuthors(p.authors);
    citation := authorStr + ", \"" + p.title + ",\" ";
    ghost var head := citation;
    if p.journal != "" {
      citation := citation + p.journal;
      if p.volume != "" {
        citation := citation + (", vol. " + p.volume);
      }
      if p.pages != "" {
        citation := citation + (", pp. " + p.pages);
      }
      citation := citation + (", " + p.year);
    }
    assert citation == head + IeeeSource(p);
  }

  method FormatCitation(p: Paper, style: string) returns (citation: Option<string>)
    ensures citation == Citation(p, style)
  {
    if style == "apa" {
      citation := FormatApa(p);
    } else if style == "mla" {
      citation := FormatMla(p);
    } else if style == "chicago" {
      citation := FormatChicago(p);
    } else if style == "ieee" {
      var c := FormatIeee(p);
      citation := Some(c);
    } else {
      citation := FormatApa(p);
    }
  }

  // ---------------------------------------------------------------------------
  // Formatted citations per style

  /** The style names in the order the agent registers them. */
  const StyleNames: seq<string> := ["apa", "mla", "chicago", "ieee"]

  /** The citations of `papers` in `style`, skipping papers the style cannot format. */
  function Formatted(papers: seq<Paper>, style: string): seq<string>
    decreases |papers|
  {
    if papers == [] then []
    else
      var front := Formatted(papers[..|papers| - 1], style);
      match Citation(papers[|papers| - 1], style)
      case None => front
      case Some(c) => front + [c]
  }

  /** IEEE formats every paper, in input order. */
  lemma {:induction false} FormattedIeee(papers: seq<Paper>)
    ensures Formatted(papers, "ieee") == seq(|papers|, k requires 0 <= k < |papers| => IeeeCitation(papers[k]))
    decreases |papers|
  {
    if papers != [] {
      var front := papers[..|papers| - 1];
      FormattedIeee(front);
      IeeeCitationsSnoc(papers);
      assert Citation(papers[|papers| - 1], "ieee") == Some(IeeeCitation(papers[|papers| - 1]));
    }
  }

  lemma IeeeCitationsSnoc(papers: seq<Paper>)
    requires papers != []
    ensures seq(|papers|, k requires 0 <= k < |papers| => IeeeCitation(papers[k])) ==
      seq(|papers| - 1, k requires 0 <= k < |papers| - 1 => IeeeCitation(papers[..|papers| - 1][k])) + [IeeeCitation(papers[|papers| - 1])]
  {
  }

  /** A style keeps one citation per paper it can format: all papers that have authors. */
  lemma {:induction false} FormattedCount(papers: seq<Paper>, style: string)
    ensures |Formatted(papers, style)| <= |papers|
    ensures (forall k :: 0 <= k < |papers| ==> |papers[k].authors| > 0) ==> |Formatted(papers, style)| == |papers|
    decreases |papers|
  {
    if papers != [] {
      var front := papers[..|papers| - 1];
      FormattedCount(front, style);
      CitationFailsOnlyWithoutAuthors(papers[|papers| - 1], style);
    }
  }

  method GenerateFormattedCitations(papers: seq<Paper>) returns (formatted: map<string, seq<string>>)
    ensures formatted.Keys == {"apa", "mla", "chicago", "ieee"}
    ensures forall style :: style in formatted ==> formatted[style] == Formatted(papers, style)
  {
    formatted := map[];
    for s := 0 to |StyleNames|
      invariant formatted.Keys == set k | 0 <= k < s :: StyleNames[k]
      invariant forall style :: style in formatted ==> formatted[style] == Formatted(papers, style)
    {
      var style := StyleNames[s];
      var list: seq<string> := [];
      for i := 0 to |papers|
        invariant list == Formatted(papers[..i], style)
      {
        assert papers[..i + 1][..i] == papers[..i];
        var c := FormatCitation(papers[i], style);
        if c.Some? {
          list := list + [c.value];
        }
      }
      assert papers[..|papers|] == papers;
      formatted := formatted[style := list];
    }
    assert formatted.Keys == {StyleNames[0], StyleNames[1], StyleNames[2], StyleNames[3]};
  }

  // ---------------------------------------------------------------------------
  // Bibliography

  /** A bibliography entry. Its date is the paper's `published_date`, stored under
      `publication_date`; it has no `year` and no citation count. */
  datatype BibEntry = BibEntry(
    id: string,
    title: string,
    authors: seq<string>,
    publicationDate: string,
    journal: string,
    volume: string,
    issue: string,
    pages: string,
    doi: string,
    url: string,
    abstractText: string,
    keywords: seq<string>,
    relevanceScore: int)

  function EntryOf(p: Paper): BibEntry {
    BibEntry(p.id, p.title, p.authors, p.publishedDate, p.journal, p.volume, p.issue,
             p.pages, p.doi, p.url, p.abstractText, p.keywords, p.relevanceScore)
  }

  function EntryScore(e: BibEntry): seq<int> {
    [e.relevanceScore]
  }

  method GenerateBibliography(papers: seq<Paper>) returns (bibliography: seq<BibEntry>)
    ensures |bibliography| == |papers|
    ensures multiset(bibliography) == multiset(seq(|papers|, k requires 0 <= k < |papers| => EntryOf(papers[k])))
    ensures forall i, j :: 0 <= i < j < |bibliography| ==> bibliography[i].relevanceScore >= bibliography[j].relevanceScore
    ensures bibliography == SortDesc(seq(|papers|, k requires 0 <= k < |papers| => EntryOf(papers[k])), EntryScore)
  {
    var entries: seq<BibEntry> := [];
    for i := 0 to |papers|
      invariant entries == seq(i, k requires 0 <= k < i => EntryOf(papers[k]))
    {
      entries := entries + [EntryOf(papers[i])];
    }
    bibliography := SortDesc(entries, EntryScore);
    forall i, j | 0 <= i < j < |bibliography|
      ensures bibliography[i].relevanceScore >= bibliography[j].relevanceScore
    {
      LexLessSingleton(bibliography[i].relevanceScore, bibliography[j].relevanceScore);
    }
  }
}
