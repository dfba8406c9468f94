# Research-paper agents: citation, generation, retrieval and coordination logic

This project models, in Dafny, the deterministic text and list logic inside the
Python agents of a multi-agent research-paper generator, and proves properties
of that model.

- **Citation agent** (`backend/agents/citation_agent.py`) has three parts:
  - Four citation styles: APA, MLA, Chicago and IEEE. Each has its own
    author-list rule and its own rule for the optional fields it prints.
  - A style dispatcher that falls back to APA, the per-style formatted lists
    and the bibliography sorted by relevance.
  - The substitution of `[n]` placeholders in a text, and a small citation
    network: keyword-sharing edges, the five central papers and counting
    statistics.
- **Paper generator agent** (`backend/agents/paper_generator_agent.py`):
  - the section list chosen by paper type and length, and the title;
  - the numbered reference list and the whitespace word count;
  - the loop that assembles a draft from section generators. The generators
    are given as opaque functions.
- **Retrieval agent** (`backend/agents/retrieval_agent.py`):
  - the parsers that turn Semantic Scholar, CrossRef and OpenAlex JSON records
    into paper records;
  - the de-duplication by title and first author;
  - the tail of `retrieve_papers`, which plans one search per known source,
    then flattens, de-duplicates, scores, sorts and truncates the results.
- **Coordinator** (`backend/coordinator/main.py`): the in-place rewriting of a
  draft's abstract and sections, turning placeholders into citations.

Modules, one per file:

| module | file | contents |
|---|---|---|
| `Wrappers` | `wrappers.dfy` | `Option` |
| `Text` | `text.dfy` | Python's `join`, `split()`, `strip()`, `lower()`, `replace`, `int()` and `str()` on naturals, over ASCII |
| `Sorting` | `sorting.dfy` | `sorted(..., reverse=True)` on tuple keys, proved stable, and the slice `[:n]` |
| `CitationFormat` | `citation_format.dfy` | paper record, styles, dispatcher, formatted lists, bibliography |
| `CitationPlaceholders` | `citation_placeholders.dfy` | the `\[(\d+)\]` matcher and placeholder substitution |
| `CitationNetwork` | `citation_network.dfy` | edges, central papers, statistics, network assembly |
| `PaperGenerator` | `paper_generator.dfy` | structure, title, references, word count, the draft class and its assembly |
| `Retrieval` | `retrieval.dfy` | the three parsers, de-duplication, the search plan and the merge |
| `Coordinator` | `coordinator.dfy` | the in-place citation rewriting of a draft |

How Python is rendered:

- A Python exception that the code catches becomes an `Option` result.
  - `authors[-1]` on an empty list, `.get` on a `null` object and a failed
    index all give `None`.
  - The caller's `except` branch is then modelled explicitly, for example
    "return the original text".
- A dictionary becomes one of two things:
  - a record with the keys the code reads (a missing key reads as the
    code's default);
  - or an ordered association list, where the insertion order matters (draft
    sections).
- Python's stable sort is an insertion sort.
  - It is proved to return a non-increasing permutation of its input.
  - It is proved to leave an already sorted input alone.
  - It is proved stable: the elements with any one key keep their input order.
- `relevance_score` is an integer. Only its order matters to the modelled
  code.
- A loop that builds up a list or the state of the draft is a `method`.
  - Each such method is proved equal to a function that states the result,
    and the properties are proved about that function.
  - The formatters that build a string by `+=` under guards are methods too.
  - Each has a segment-by-segment layout function beside it.

## Model

| member | source | states |
|---|---|---|
| CitationFormat.ApaAuthors | backend/agents/citation_agent.py:234-239 | APA authors fail (`authors[-1]` raises) exactly when the list is empty |
| CitationFormat.ApaAuthorsShape | backend/agents/citation_agent.py:236-239 | 2 to 7 authors: every author but the last followed by `", "`, then `"& "` and the last; more than 7: the first six each followed by `", "`, then `"... "` and the last |
| CitationFormat.AndAuthors | backend/agents/citation_agent.py:266-271 | MLA and Chicago authors fail exactly when the list is empty |
| CitationFormat.AndAuthorsShape | backend/agents/citation_agent.py:266-271 | from 2 authors: every author but the last followed by `", "`, then `"and "` and the last |
| CitationFormat.IeeeAuthorsShape | backend/agents/citation_agent.py:328-333 | up to 6 authors are all joined by `", "` (the string plus `", "` is every author followed by `", "`); zero authors give the empty string |
| CitationFormat.IeeeAuthorsEtAl | backend/agents/citation_agent.py:332-333 | more than 6 authors: the first three joined by `", "`, then `" et al."` |
| CitationFormat.JoinTerminated | backend/agents/citation_agent.py:237 | `', '.join(xs) + ', '` is every element followed by `", "` |
| CitationFormat.FormatApa | backend/agents/citation_agent.py:223-254 | the appends under guards build exactly the APA layout `<authors> (<year>). <title>. <journal>[, <volume>][, <pages>][ https://doi.org/<doi>]`, and fail when there are no authors |
| CitationFormat.FormatMla | backend/agents/citation_agent.py:256-283 | the appends build exactly the MLA layout: `<authors>. "<title>." <journal>[, vol. <v>], <year>[, pp. <pages>]`, with the year only inside the journal block |
| CitationFormat.FormatChicago | backend/agents/citation_agent.py:285-316 | the appends build exactly the Chicago layout: volume after a bare space, `, no. <issue> (<year>): <pages>` when there are pages, else ` (<year>)`, then the DOI link |
| CitationFormat.FormatIeee | backend/agents/citation_agent.py:318-346 | the appends build exactly the IEEE layout `<authors>, "<title>," <journal>[, vol. <v>][, pp. <p>], <year>`; total on every input |
| CitationFormat.FormatCitation | backend/agents/citation_agent.py:104-109 | the dispatcher returns the formatter of the named style |
| CitationFormat.UnknownStyleIsApa | backend/agents/citation_agent.py:106-109 | a style outside apa, mla, chicago and ieee gives the APA citation |
| CitationFormat.CitationFailsOnlyWithoutAuthors | backend/agents/citation_agent.py:234-239 | a citation fails exactly when the paper has no authors and the style is not IEEE |
| CitationFormat.ApaLayout | backend/agents/citation_agent.py:242-252 | APA starts `<authors> (<year>). <title>. `, ends with ` https://doi.org/<doi>` whenever there is a DOI (journal or not), and is only that start when there is neither journal nor DOI |
| CitationFormat.NoJournalIgnoresDetails | backend/agents/citation_agent.py:244-250 | without a journal, volume, issue and pages change no style's output |
| CitationFormat.MlaIeeeIgnoreDoi | backend/agents/citation_agent.py:266-281 | MLA and IEEE never print the DOI; without a journal MLA does not print the year |
| CitationFormat.ChicagoIssueNeedsPages | backend/agents/citation_agent.py:306-311 | Chicago prints the issue only when there are pages |
| CitationFormat.ExampleApa | backend/agents/citation_agent.py:242-252 | the two-author example gives `A Smith, & B Lee (2021). X. J, 5, 1-10` |
| CitationFormat.ExampleMla | backend/agents/citation_agent.py:266-281 | the same example gives `A Smith, and B Lee. "X." J, vol. 5, 2021, pp. 1-10` |
| CitationFormat.ExampleChicago | backend/agents/citation_agent.py:296-314 | the same example gives `A Smith, and B Lee. "X." J 5, no.  (2021): 1-10`, with the empty issue printed |
| CitationFormat.ExampleIeee | backend/agents/citation_agent.py:328-345 | the same example gives `A Smith, B Lee, "X," J, vol. 5, pp. 1-10, 2021` |
| CitationFormat.ExampleAndAuthors | backend/agents/citation_agent.py:266-271 | two authors give `A Smith, and B Lee` |
| CitationFormat.GenerateFormattedCitations | backend/agents/citation_agent.py:111-126 | one list for each of the four styles, holding that style's citations in paper order, with the papers it cannot format skipped |
| CitationFormat.FormattedIeee | backend/agents/citation_agent.py:115-124 | the IEEE list has the IEEE citation of every paper, in order |
| CitationFormat.FormattedCount | backend/agents/citation_agent.py:118-124 | a style's list is never longer than the paper list, and is exactly as long when every paper has authors |
| CitationFormat.GenerateBibliography | backend/agents/citation_agent.py:152-183 | one entry per paper, each with its record's fields; the entries are a permutation of the papers' entries, in non-increasing relevance, stably sorted |
| CitationPlaceholders.TokensRoundTrip | backend/agents/citation_agent.py:68 | the left-to-right tokenizer for `\[(\d+)\]` loses nothing: joining the tokens gives back the text |
| CitationPlaceholders.FindAllDigits | backend/agents/citation_agent.py:68 | every match is a non-empty run of digits |
| CitationPlaceholders.FindAllEmptyIff | backend/agents/citation_agent.py:68-71 | no match is found exactly when the text contains no `[digits]` span |
| CitationPlaceholders.ReplaceCitationPlaceholders | backend/agents/citation_agent.py:53-102 | the loop over the distinct numbers and the substitution return the substituted text, or the original text when there is no placeholder or when a lookup raises |
| CitationPlaceholders.CitePaper | backend/agents/citation_agent.py:78-89 | for an index below the paper count: a negative index that Python still accepts wraps from the end, one below `-len(papers)` raises, and otherwise the paper's citation in the style is the result |
| CitationPlaceholders.ReplacedTextPerOccurrence | backend/agents/citation_agent.py:77-98 | unless a lookup raises, every occurrence of `[n]` becomes its citation or stays verbatim, so equal numbers get equal text; if one raises, the text comes back unchanged |
| CitationPlaceholders.OutOfRangeUnchanged | backend/agents/citation_agent.py:80-96 | when every number exceeds the paper count, the text is returned unchanged |
| CitationPlaceholders.SinglePlaceholderReplaced | backend/agents/citation_agent.py:77-96 | a text that is one placeholder becomes what its number resolves to |
| CitationPlaceholders.CitesNthPaper | backend/agents/citation_agent.py:78-83 | `[n]` with `1 <= n <= len(papers)` becomes the style's citation of `papers[n-1]` |
| CitationPlaceholders.ZeroIsLastPaper | backend/agents/citation_agent.py:78-82 | `[0]` is read as index -1, so it cites the last paper; with no papers the lookup raises and the text is returned as it was |
| CitationNetwork.FindPaperConnections | backend/agents/citation_agent.py:369-387 | the nested loops produce one edge per connected pair, in pair order |
| CitationNetwork.ConnectedPairsSpec | backend/agents/citation_agent.py:374-380 | the pairs visited are exactly the index pairs `i < j` whose keyword sets share at least two elements, each once, in lexicographic order |
| CitationNetwork.EdgesExactlyConnected | backend/agents/citation_agent.py:380-385 | every connected pair has its edge, from the earlier paper to the later, weighted by the shared-keyword count, and every edge comes from a connected pair |
| CitationNetwork.CentralPapersOrdered | backend/agents/citation_agent.py:389-398 | at most five papers, taken from the input, in non-increasing (relevance, citations) order |
| CitationNetwork.CentralPapersMaximal | backend/agents/citation_agent.py:392-398 | no paper left out ranks above a central one |
| CitationNetwork.TallyIsDegree | backend/agents/citation_agent.py:415-420 | the counts dictionary has exactly the edge endpoints as keys, each counted once per edge end |
| CitationNetwork.KeyOrderSpec | backend/agents/citation_agent.py:415-420 | the dictionary's insertion order lists each endpoint once |
| CitationNetwork.FirstMax | backend/agents/citation_agent.py:423 | `max(counts, key=counts.get)` returns a key whose count no key exceeds |
| CitationNetwork.FirstMaxIsFirst | backend/agents/citation_agent.py:423 | on a tie, `max` returns the key inserted first |
| CitationNetwork.MostConnectedIsMaximal | backend/agents/citation_agent.py:415-428 | the most connected id is an endpoint with the largest degree, and no endpoint met before it in the counting order has as large a degree |
| CitationNetwork.MaxPossibleEdges | backend/agents/citation_agent.py:431-432 | the number of node pairs `n(n-1)/2` is positive exactly when there are two or more nodes |
| CitationNetwork.CountConnections | backend/agents/citation_agent.py:415-420 | the loop counts each id once per edge end, and keeps the ids in the order first stored |
| CitationNetwork.CalculateNetworkStats | backend/agents/citation_agent.py:400-434 | paper and connection totals, the average when there are nodes, the title of the first node with the most connected id, and density `edges / (n(n-1)/2)`, or 0 when that is 0 |
| CitationNetwork.NodeTitleOfPapers | backend/agents/citation_agent.py:424-428 | the title looked up is that of the first node with the id |
| CitationNetwork.BuildCitationNetwork | backend/agents/citation_agent.py:185-221 | one node per paper in order, the connection edges, the central papers, and statistics: the paper count and the number of connected pairs, the average and the density over them, and the most connected paper's title |
| PaperGenerator.DeterminePaperStructure | backend/agents/paper_generator_agent.py:93-138 | review papers take the six-section list, every other type the eight-section one; `short` drops methodology and results, `long` appends limitations and future_work, any other length keeps it; the list starts with abstract, contains references, ends with references unless long, and has no repeats |
| PaperGenerator.Without | backend/agents/paper_generator_agent.py:133 | the filtered list holds exactly the elements not dropped |
| PaperGenerator.WithoutAppend | backend/agents/paper_generator_agent.py:133 | the filter keeps the remaining order: it distributes over concatenation |
| PaperGenerator.ShortIsReview | backend/agents/paper_generator_agent.py:98-133 | a short paper of any type has the review structure |
| PaperGenerator.TitleKeepsFirstWords | backend/agents/paper_generator_agent.py:148-155 | with findings, the title is `<topic>: ` followed by exactly the first (at most three) words of the first finding |
| PaperGenerator.ReferenceAuthors | backend/agents/paper_generator_agent.py:536-541 | the reference author rule fails (`authors[-1]` raises) exactly on an empty list |
| PaperGenerator.ReferenceAuthorsShape | backend/agents/paper_generator_agent.py:536-541 | 2 or 3 authors as all but the last, `", & "`, the last; more than 3 as the first two and `", et al."` |
| PaperGenerator.GenerateReferences | backend/agents/paper_generator_agent.py:514-552 | the loop returns the heading and the numbered lines of the 20 best references joined by blank lines, the "will be populated" text for an empty bibliography, and the fixed fallback when a kept reference has an empty author list |
| PaperGenerator.FormatReferenceAuthors | backend/agents/paper_generator_agent.py:536-541 | the branches of the author rule agree with `ReferenceAuthors`, with no result exactly where `authors[-1]` raises |
| PaperGenerator.FormatReferenceLines | backend/agents/paper_generator_agent.py:529-544 | the loop over the kept entries gives their numbered lines in order, or stops exactly when some kept entry has an empty author list |
| PaperGenerator.ReferencesFallbackIff | backend/agents/paper_generator_agent.py:520-552 | the fallback is returned when a kept reference has no authors; otherwise the text starts with `## References` |
| PaperGenerator.ReferencesCount | backend/agents/paper_generator_agent.py:527-529 | 20 references are kept, or all when there are fewer, taken from the bibliography |
| PaperGenerator.ReferencesOrdered | backend/agents/paper_generator_agent.py:527-529 | the kept references are in non-increasing relevance |
| PaperGenerator.ReferencesMaximal | backend/agents/paper_generator_agent.py:527-529 | no reference left out scores above a kept one |
| PaperGenerator.ReferenceLabels | backend/agents/paper_generator_agent.py:529-543 | line k opens with the label `[k+1]`, a digit string that reads back as k+1 |
| PaperGenerator.PaperDraft.CalculateWordCount | backend/agents/paper_generator_agent.py:554-568 | the words of the abstract plus the words of every text-valued section; other sections add nothing |
| PaperGenerator.SectionsWordsAppend | backend/agents/paper_generator_agent.py:563-566 | the section count is additive over the section list |
| PaperGenerator.SectionsWordsOfNoProse | backend/agents/paper_generator_agent.py:565 | sections that are not text contribute 0 |
| PaperGenerator.JoinedWordsCount | backend/agents/paper_generator_agent.py:560-566 | text of words separated by single spaces counts one per word |
| PaperGenerator.PaperDraft.constructor | backend/agents/paper_generator_agent.py:53-64 | the draft as first built: given title, topic and structure, no authors, empty abstract, no sections, a zero count |
| PaperGenerator.GenerateDraft | backend/agents/paper_generator_agent.py:32-91 | a new draft with the title and structure chosen; its sections are the generated ones in structure order, references from the bibliography; word count taken while the abstract is still empty; abstract set last |
| PaperGenerator.PaperDraft.AssembleSections | backend/agents/paper_generator_agent.py:66-76 | the sections become the generated ones in structure order, and no other field of the draft changes |
| PaperGenerator.GenerateSection | backend/agents/paper_generator_agent.py:68-76 | a section with a generator gets its text, the references their formatted text, and a failing generator the `Error generating <name>` text |
| PaperGenerator.DraftSectionNames | backend/agents/paper_generator_agent.py:67-73 | the section names are the structure's names that have a generator, in order |
| PaperGenerator.NoExtraSections | backend/agents/paper_generator_agent.py:21-30 | limitations and future_work never appear among the sections |
| PaperGenerator.FailedSectionText | backend/agents/paper_generator_agent.py:74-76 | a section whose generator raised holds `Error generating <name>` |
| Retrieval.ScholarAuthors | backend/agents/retrieval_agent.py:313 | each author's `name` in order, `''` where missing |
| Retrieval.StoredText | backend/agents/retrieval_agent.py:319 | `.get(key, '')` stores `''` for a missing key, the string for a present one, and no string for `null` |
| Retrieval.ParseSemanticScholar | backend/agents/retrieval_agent.py:310-330 | fails exactly when `openAccessPdf` is `null`; otherwise source `semantic_scholar`, no DOI, the authors' names, the title and the abstract as stored |
| Retrieval.CrossrefAuthorsCount | backend/agents/retrieval_agent.py:335-342 | one name per author entry that has a family name, and no other |
| Retrieval.CrossrefAuthorsInOrder | backend/agents/retrieval_agent.py:336-342 | when every author has a family name, the i-th name is the i-th author's: `<given> <family>` when both are present, `family` alone otherwise |
| Retrieval.CrossrefAuthorsAppend | backend/agents/retrieval_agent.py:336-342 | the names of two author lists in a row are the names of the first followed by those of the second, so dropped authors keep the others in input order |
| Retrieval.CrossrefAuthorsSingle | backend/agents/retrieval_agent.py:337-342 | one author contributes `<given> <family>`, `family` alone without a given name, or nothing without a family name |
| Retrieval.FirstTextMining | backend/agents/retrieval_agent.py:345-348 | the first link whose intended application is text-mining, or none when no link is |
| Retrieval.CrossrefDoiSource | backend/agents/retrieval_agent.py:344-351 | the DOI is the first text-mining URL with the resolver prefix removed when that is non-empty; the `DOI` field when there is no text-mining link or its stripped URL is empty |
| Retrieval.CrossrefDoiPlain | backend/agents/retrieval_agent.py:347 | a link URL without the resolver prefix is taken as it is |
| Retrieval.CrossrefYear | backend/agents/retrieval_agent.py:356 | the year is `date-parts[0][0]`, or 0 when `published-print` or its `date-parts` is missing; the lookup fails exactly when either is `null` or the parts list or its first entry is empty |
| Retrieval.ParseCrossref | backend/agents/retrieval_agent.py:332-366 | the parsed record: first title and journal or `''`, the author names, the year, the DOI, an empty abstract, source `crossref`; fails exactly when the year's lookup raises |
| Retrieval.OpenAlexAuthorsSpec | backend/agents/retrieval_agent.py:371-375 | the names are exactly the non-empty display names (as a set); the parse fails exactly when an authorship's author is `null` |
| Retrieval.OpenAlexAuthorsAppend | backend/agents/retrieval_agent.py:371-375 | the names of two authorship lists in a row are those of the first followed by those of the second, and the parse fails exactly when either part fails, so order and repeats are kept |
| Retrieval.OpenAlexAuthorsSingle | backend/agents/retrieval_agent.py:372-375 | one authorship contributes its non-empty display name, nothing for a missing author or name, or a failure for a `null` author |
| Retrieval.OpenAlexAuthorsNull | backend/agents/retrieval_agent.py:373 | a `null` author makes the parse fail |
| Retrieval.FirstDoiId | backend/agents/retrieval_agent.py:379-382 | a DOI id is found exactly when the ids have a `doi` entry |
| Retrieval.OpenAlexAbstract | backend/agents/retrieval_agent.py:389 | the stored abstract is a string, `''`, exactly when `abstract_inverted_index` is missing |
| Retrieval.ParseOpenAlex | backend/agents/retrieval_agent.py:368-397 | the parsed record: title, authors, year, `ids['doi']` without `https://doi.org/` or none, the inverted index as abstract, the journal, the `id` with the OpenAlex prefix replaced, source `openalex`; fails exactly on a `null` author or location |
| Retrieval.OpenAlexUrl | backend/agents/retrieval_agent.py:391 | an OpenAlex id URL becomes a DOI resolver URL |
| Retrieval.DeduplicatePapers | backend/agents/retrieval_agent.py:514-529 | the loop keeps a paper exactly when its key has not been seen |
| Retrieval.DedupDistinct | backend/agents/retrieval_agent.py:519-527 | no two kept papers share a key, and every key of the input is kept |
| Retrieval.DedupSubsequence | backend/agents/retrieval_agent.py:519-527 | the result is an order-preserving subsequence of the input |
| Retrieval.DedupKeepsFirst | backend/agents/retrieval_agent.py:525-527 | every kept paper is the first input paper with its key |
| Retrieval.DedupKeepsEveryFirst | backend/agents/retrieval_agent.py:525-527 | the first input paper with each key is kept |
| Retrieval.DedupOfDistinct | backend/agents/retrieval_agent.py:519-527 | a list without repeated keys is kept whole |
| Retrieval.DedupIdempotent | backend/agents/retrieval_agent.py:514-529 | de-duplicating twice gives the same as once |
| Retrieval.KnownOnly | backend/agents/retrieval_agent.py:66-67 | the searched sources are the requested ones the agent knows |
| Retrieval.PlanSearches | backend/agents/retrieval_agent.py:65-69 | one search per known requested source, in request order, each with the limit `max_papers // len(sources)` |
| Retrieval.SearchPlanBudget | backend/agents/retrieval_agent.py:66-68 | the searches cover exactly the known requested sources, and their limits add up to at most `max_papers` |
| Retrieval.FlattenMembers | backend/agents/retrieval_agent.py:75-80 | a paper is merged exactly when a successful search returned it; raised searches are skipped |
| Retrieval.Scored | backend/agents/retrieval_agent.py:84 | every paper gets a new relevance score and keeps its other fields |
| Retrieval.RetrievePapers | backend/agents/retrieval_agent.py:46-94 | the merge loop, de-duplication, scoring, sort and slice give the merged list; when there are papers and the topic has no words or an abstract is no string, `[]`, as the scoring raises |
| Retrieval.MergeResultsProperties | backend/agents/retrieval_agent.py:75-87 | at most `max_papers` papers, in non-increasing relevance, no two with the same key, each a scored paper that a successful search returned |
| Retrieval.NonTextAbstractEmptiesResult | backend/agents/retrieval_agent.py:84-94 | one kept paper whose abstract is no string, such as an OpenAlex paper with an inverted index, makes the final list empty |
| Retrieval.MergeResultsLength | backend/agents/retrieval_agent.py:84-87 | with topic words and text abstracts only, the list has `max_papers` papers, or every unique paper when there are fewer |
| Sorting.SortDesc | backend/agents/citation_agent.py:181 | the descending sort returns a permutation, in non-increasing key order |
| Sorting.SortDescOfSorted | backend/agents/citation_agent.py:181 | an input already in non-increasing order is returned unchanged |
| Sorting.InsertWithKey | backend/agents/citation_agent.py:181 | an inserted element goes in front of every element with its own key |
| Sorting.SortDescStable | backend/agents/citation_agent.py:181 | the sort is stable: the elements with any one key come out in their input order |
| Sorting.TopDescProperties | backend/agents/retrieval_agent.py:87 | `sorted(..., reverse=True)[:n]` keeps n elements (or all), in order, taken from the input, none left out ranking above a kept one |
| Text.WordsOfJoin | backend/agents/paper_generator_agent.py:154-155 | splitting words joined by single spaces gives the words back |
| Text.NatToStringRoundTrip | backend/agents/paper_generator_agent.py:543 | `str(n)` is a non-empty digit string that `int()` reads back as n |
| Text.ReplaceAllAbsent | backend/agents/retrieval_agent.py:347 | `replace` leaves a string without the pattern unchanged |
| Coordinator.ReplaceCitationsInDraft | backend/coordinator/main.py:90-116 | the same draft object comes back; its abstract, if present, and its sections, if present, are rewritten, and no other field changes |
| Coordinator.RewriteSections | backend/coordinator/main.py:101-110 | each section keeps its name and position, and gets its rewritten value |
| Coordinator.RewriteValue | backend/coordinator/main.py:103-110 | a dict with `content` gets that entry rewritten, a string is rewritten, and any other value is left as it is |
| Coordinator.PartlyRewrittenStep | backend/coordinator/main.py:102-110 | one pass of the loop overwrites only the current section |
| Coordinator.RewriteKeepsNames | backend/coordinator/main.py:101-110 | the section names and their order are unchanged |
| Coordinator.RewriteOnlyContent | backend/coordinator/main.py:103-106 | a dictionary section has only its `content` entry rewritten; its keys and other entries stay |
| Coordinator.RewriteUncited | backend/coordinator/main.py:107-110 | a text section whose numbers all exceed the paper count is left as it is |
| Coordinator.LabelSectionRewritten | backend/coordinator/main.py:107-110 | a text section that is just the label `[n]`, as each reference line begins, becomes the citation of the n-th paper |

## Left out

- The network searches are left out because they are HTTP I/O: every `_search_*` method and `_fetch_pubmed_details`. The search results a merge works on are a parameter.
- The concurrent `asyncio.gather` fan-out is not modelled. The merge takes the results in task order, and an exception is a `Raised` result.
- The OpenAI calls and the LLM-backed abstract, introduction and literature-review generators are opaque. `GenerateDraft` takes each section's text, or its failure, as the function `generated`, and the abstract as a parameter.
- The fixed-template methodology, results, discussion and conclusion generators are inside the opaque `generated` too.
- The PubMed and arXiv XML parsers are not modelled: they depend on an XML library.
- `_score_papers` uses floating-point weights. It is the opaque integer function `score`. Its only modelled behaviour is that it raises, and `retrieve_papers` returns `[]`, when there are papers and the topic has no words or some abstract is not a string (`abstract.lower()` fails). Every OpenAlex paper whose record has `abstract_inverted_index`, as an object or `null`, has such an abstract.
- Other values that are not strings and make `.lower()` raise are not modelled, for example a `null` title.
- `generate_citations`, `_generate_in_text_citations` and `_find_citation_contexts` are not modelled: they orchestrate or match text outside the core.
- The coordinator's orchestration is not modelled: `initialize_agents`, `generate_research_paper` and `main`.
- Logging, environment variables and `datetime.now()` are not modelled. The draft's `generation_date` is not a field.
- Python's Unicode `lower()`, `strip()` and `split()` are modelled on ASCII.
- A string field whose value is `None` in a record is passed as the code's default string. The model follows `null` in these fields:
  - `null` makes a `.get` chain or an index raise: Semantic Scholar's `openAccessPdf`, OpenAlex's author and primary location, and CrossRef's `published-print` and `date-parts`;
  - a `null` abstract (Semantic Scholar) or inverted index (OpenAlex) is stored and later makes the scoring raise.
- A `null` list, or a `null` entry in a list, is not modelled: the model's lists always hold objects. In the source each makes the parser raise and return `None`. The lists are Semantic Scholar's `authors` (`backend/agents/retrieval_agent.py:313`), CrossRef's `author` and `link` (`:336`, `:345`), and OpenAlex's `authorships` and `ids` (`:372`, `:379`). Their entries are read with `.get` at `:313`, `:337`, `:346` and `:373`.
- A network node keeps only the id and title that the statistics read. Authors, year, relevance and citation count are not copied onto nodes.
- The parsed record has the same fields for every source. A key that a source's dictionary lacks (`paper_id` and `open_access_pdf` outside Semantic Scholar) is `None`.
- CrossRef's `DOI` field is treated as a string. A `None` there is not modelled.
- The content of OpenAlex's `abstract_inverted_index` is never read; only whether the key is missing matters to the model.
- A CrossRef `date-parts` entry holding `null` is not modelled: years are integers and the first entry is a list. A `null` year (`[[null]]`) would be stored as the year; a `null` first entry (`[null]`) makes `[0][0]` raise at `backend/agents/retrieval_agent.py:356`, so the parser returns `None`.
- A `null` in a string field that the parser calls `.replace` on is not modelled: the model reads it as `''` and parses on, while the source raises and the parser returns `None`. The fields are CrossRef's link `URL` (`backend/agents/retrieval_agent.py:347`, caught at `:364`), and OpenAlex's `ids` values (`:381`) and `id` (`:391`), caught at `:395`.
- OpenAlex's `ids` is an ordered list of entries, so a repeated key cannot occur.
- The `except` branch of `_replace_citations_in_draft` cannot be reached in the model: the placeholder step catches its own errors.
- `generate_draft`'s error dictionary is not returned. Its shape, a draft with neither abstract nor sections, is allowed by the optional `abstractText` and `sections` fields that `ReplaceCitationsInDraft` handles.
- Python's in-place `section_content['content'] = ...` also changes every other holder of that dictionary. The model rewrites the section value held by the draft, so such aliasing is not modelled.
- In `_generate_references` the bibliography records carry a `year`. The bibliography that `_generate_bibliography` builds has no `year` key, so in that pipeline the year reads `''`. The model takes the records as given.
- ReferencesFallbackIff: for the non-fallback case it states only that the text starts with `## References`, not that it differs from the fallback sentence.
- Network statistics: the average and the density are computed in exact real arithmetic (`CalculateNetworkStats`, `BuildCitationNetwork`), not in IEEE-754 double division as at `backend/agents/citation_agent.py:408` and `:431-432`, so rounding is not modelled.
- Placeholder digits: Python's `\d` and `int()` accept any Unicode decimal digit; the model's `[n]` matcher accepts only the ASCII digits `0` to `9` (`backend/agents/citation_agent.py:68`).
- GenerateTitle: the `except` branch of `_generate_title` is not modelled. It returns the `Research on ...` title when the first key finding is not a dictionary with a string `finding` (`backend/agents/paper_generator_agent.py:161-163`); the model's key findings are always strings.
