/** The paper generator agent's deterministic parts: choosing the section list,
    the title, the numbered reference list, the word count, and the loop that
    assembles a draft from section generators given as opaque functions. */
module PaperGenerator {
  import opened Wrappers
  import opened Text
  import opened Sorting

  // ---------------------------------------------------------------------------
  // Paper structure

  /** The sections of a review paper. */
  const ReviewStructure: seq<string> :=
    ["abstract", "introduction", "literature_review", "discussion", "conclusion", "references"]

  /** The sections of a research or methodology paper (and of any other type). */
  const FullStructure: seq<string> :=
    ["abstract", "introduction", "literature_review", "methodology", "results",
     "discussion", "conclusion", "references"]

  /** The sections a short paper drops. */
  const ShortDropped: set<string> := {"methodology", "results"}

  /** The sections a long paper adds at the end. */
  const LongExtra: seq<string> := ["limitations", "future_work"]

  /** The structure chosen by the paper type alone. */
  function BaseStructure(paperType: string): seq<string> {
    if paperType == "review_paper" then ReviewStructure else FullStructure
  }

  /** `[s for s in xs if s not in drop]`. */
  function Without(xs: seq<string>, drop: set<string>): (r: seq<string>)
    ensures forall x :: x in r <==> x in xs && x !in drop
    ensures |r| <= |xs|
    decreases |xs|
  {
    if xs == [] then []
    else
      var front := Without(xs[..|xs| - 1], drop);
      var last := xs[|xs| - 1];
      assert forall x :: x in xs <==> x in xs[..|xs| - 1] || x == last;
      if last in drop then front else front + [last]
  }

  /** Filtering keeps the first element when it is kept at all. */
  lemma {:induction false} WithoutHead(xs: seq<string>, drop: set<string>)
    requires |xs| > 0 && xs[0] !in drop
    ensures |Without(xs, drop)| > 0 && Without(xs, drop)[0] == xs[0]
    decreases |xs|
  {
    if |xs| > 1 {
      WithoutHead(xs[..|xs| - 1], drop);
      assert xs[..|xs| - 1][0] == xs[0];
    }
  }

  /** Filtering keeps the last element when it is kept at all. */
  lemma WithoutLast(xs: seq<string>, drop: set<string>)
    requires |xs| > 0 && xs[|xs| - 1] !in drop
    ensures |Without(xs, drop)| > 0 && Without(xs, drop)[|Without(xs, drop)| - 1] == xs[|xs| - 1]
  {
  }

  /** Filtering a list without duplicates gives a list without duplicates. */
  lemma {:induction false} WithoutDistinct(xs: seq<string>, drop: set<string>)
    requires Distinct(xs)
    ensures Distinct(Without(xs, drop))
    decreases |xs|
  {
    if xs != [] {
      assert Distinct(xs[..|xs| - 1]);
      WithoutDistinct(xs[..|xs| - 1], drop);
    }
  }

  predicate Distinct(xs: seq<string>) {
    forall i, j :: 0 <= i < j < |xs| ==> xs[i] != xs[j]
  }

  /** Filtering distributes over concatenation. */
  lemma {:induction false} WithoutAppend(xs: seq<string>, ys: seq<string>, drop: set<string>)
    ensures Without(xs + ys, drop) == Without(xs, drop) + Without(ys, drop)
    decreases |ys|
  {
    if ys != [] {
      var front := ys[..|ys| - 1];
      assert (xs + ys)[..|xs + ys| - 1] == xs + front;
      assert (xs + ys)[|xs + ys| - 1] == ys[|ys| - 1];
      WithoutAppend(xs, front, drop);
    } else {
      assert xs + ys == xs;
    }
  }

  /** Filtering a list that holds nothing to drop leaves it unchanged. */
  lemma {:induction false} WithoutNothing(xs: seq<string>, drop: set<string>)
    requires forall x :: x in xs ==> x !in drop
    ensures Without(xs, drop) == xs
    decreases |xs|
  {
    if xs != [] {
      WithoutNothing(xs[..|xs| - 1], drop);
    }
  }

  /** Filtering a list made only of dropped elements leaves nothing. */
  lemma {:induction false} WithoutAll(xs: seq<string>, drop: set<string>)
    requires forall x :: x in xs ==> x in drop
    ensures Without(xs, drop) == []
    decreases |xs|
  {
    if xs != [] {
      WithoutAll(xs[..|xs| - 1], drop);
    }
  }

  lemma ReviewHasNothingToDrop()
    ensures Without(ReviewStructure, ShortDropped) == ReviewStructure
  {
    WithoutNothing(ReviewStructure, ShortDropped);
  }

  lemma FullDropsToReview()
    ensures Without(FullStructure, ShortDropped) == ReviewStructure
  {
    var front: seq<string> := ["abstract", "introduction", "literature_review"];
    var middle: seq<string> := ["methodology", "results"];
    var back: seq<string> := ["discussion", "conclusion", "references"];
    assert ReviewStructure == front + back;
    assert FullStructure == (front + middle) + back;
    assert Without(front + middle, ShortDropped) == front by {
      WithoutNothing(front, ShortDropped);
      WithoutAll(middle, ShortDropped);
      WithoutAppend(front, middle, ShortDropped);
    }
    assert Without(back, ShortDropped) == back by {
      WithoutNothing(back, ShortDropped);
    }
    WithoutAppend(front + middle, back, ShortDropped);
  }

  /** A short paper of either base structure is exactly the review structure. */
  lemma ShortIsReview(paperType: string)
    ensures Without(BaseStructure(paperType), ShortDropped) == ReviewStructure
  {
    if paperType == "review_paper" {
      ReviewHasNothingToDrop();
    } else {
      FullDropsToReview();
    }
  }

  lemma BaseStructureDistinct(paperType: string)
    ensures Distinct(BaseStructure(paperType))
  {
  }

  /** Two lists without duplicates and without a common element concatenate
      into a list without duplicates. */
  lemma DistinctAppend(xs: seq<string>, ys: seq<string>)
    requires Distinct(xs) && Distinct(ys)
    requires forall x :: x in xs ==> x !in ys
    ensures Distinct(xs + ys)
  {
    forall i, j | 0 <= i < j < |xs + ys| ensures (xs + ys)[i] != (xs + ys)[j] {
      if i < |xs| && j >= |xs| {
        assert (xs + ys)[i] in xs && (xs + ys)[j] == ys[j - |xs|];
      }
    }
  }

  /** The structure of a long paper has no repeated section. */
  lemma LongStructureDistinct(paperType: string)
    ensures Distinct(BaseStructure(paperType) + LongExtra)
  {
    BaseStructureDistinct(paperType);
    assert Distinct(LongExtra);
    DistinctAppend(BaseStructure(paperType), LongExtra);
  }

  /** The section list for a paper type and length: the base list, with the
      short-paper sections dropped or the long-paper sections appended. */
  function PaperStructure(paperType: string, length: string): seq<string> {
    if length == "short" then Without(BaseStructure(paperType), ShortDropped)
    else if length == "long" then BaseStructure(paperType) + LongExtra
    else BaseStructure(paperType)
  }

  /** `_determine_paper_structure`: the list the paper type selects, then the
      length adjustment. A missing `type` or `length` is passed as its default,
      `"research_paper"` or `"medium"`. */
  method DeterminePaperStructure(paperType: string, length: string) returns (structure: seq<string>)
    ensures structure == PaperStructure(paperType, length)
    ensures |structure| > 0 && structure[0] == "abstract"
    ensures "references" in structure
    ensures length != "long" ==> structure[|structure| - 1] == "references"
    ensures Distinct(structure)
  {
    if paperType == "review_paper" {
      structure := ReviewStructure;
    } else if paperType == "methodology_paper" {
      structure := FullStructure;
    } else {
      structure := FullStructure;
    }
    if length == "short" {
      ShortIsReview(paperType);
      BaseStructureDistinct("review_paper");
      structure := Without(structure, ShortDropped);
      assert structure == ReviewStructure;
    } else if length == "long" {
      LongStructureDistinct(paperType);
      structure := structure + LongExtra;
    } else {
      BaseStructureDistinct(paperType);
    }
  }

  // ---------------------------------------------------------------------------
  // Title

  /** `_generate_title`; `keyFindings` holds the `finding` text of each key finding
      (a missing one is `""`). */
  function GenerateTitle(topic: string, keyFindings: seq<string>): string {
    if |keyFindings| > 0 then topic + ": " + Join(" ", Prefix(Words(keyFindings[0]), 3))
    else "Research on " + topic + ": A Comprehensive Analysis"
  }

  /** With findings, the title is the topic, a colon, and then exactly the first
      (at most three) words of the first finding. */
  lemma TitleKeepsFirstWords(topic: string, keyFindings: seq<string>)
    requires |keyFindings| > 0
    ensures var title := GenerateTitle(topic, keyFindings);
      var ws := Words(keyFindings[0]);
      && title[..|topic| + 2] == topic + ": "
      && Words(title[|topic| + 2..]) == ws[..if |ws| < 3 then |ws| else 3]
      && |Words(title[|topic| + 2..])| <= 3
  {
    var ws := Words(keyFindings[0]);
    var kept := Prefix(ws, 3);
    WordsAreWords(keyFindings[0]);
    assert forall k :: 0 <= k < |kept| ==> kept[k] == ws[k];
    WordsOfJoin(kept);
    var title := GenerateTitle(topic, keyFindings);
    assert title == (topic + ": ") + Join(" ", kept);
  }

  // ---------------------------------------------------------------------------
  // References

  /** A bibliography entry as `_generate_references` reads it: `authors` and
      `title` may be missing (then `['Unknown']` and `'Untitled'` are used);
      a missing journal or year is `""` and a missing score is 0. */
  datatype Reference = Reference(
    authors: Option<seq<string>>,
    title: Option<string>,
    journal: string,
    year: string,
    relevanceScore: int)

  const Heading := "## References"
  const NoBibliography := "References will be populated from the analyzed papers."
  const ReferencesFallback := "References will be included based on the analyzed literature."
  const MaxReferences := 20

  function AuthorsOf(r: Reference): seq<string> {
    r.authors.GetOr(["Unknown"])
  }

  function ReferenceScore(r: Reference): seq<int> {
    [r.relevanceScore]
  }

  /** The author string of a reference; `None` where `authors[-1]` raises. */
  function ReferenceAuthors(authors: seq<string>): (r: Option<string>)
    ensures r.None? <==> |authors| == 0
  {
    if |authors| == 1 then Some(authors[0])
    else if |authors| <= 3 then
      if |authors| == 0 then None
      else Some(Join(", ", authors[..|authors| - 1]) + ", & " + authors[|authors| - 1])
    else Some(Join(", ", authors[..2]) + ", et al.")
  }

  /** The author rule on each list length it distinguishes. */
  lemma ReferenceAuthorsShape(authors: seq<string>)
    ensures |authors| == 2 ==> ReferenceAuthors(authors) == Some(authors[0] + ", & " + authors[1])
    ensures |authors| == 3 ==>
      ReferenceAuthors(authors) == Some(authors[0] + ", " + authors[1] + ", & " + authors[2])
    ensures |authors| > 3 ==> ReferenceAuthors(authors) == Some(authors[0] + ", " + authors[1] + ", et al.")
  {
    if |authors| == 2 {
      assert authors[..1] == [authors[0]];
    } else if |authors| >= 3 {
      assert authors[..2][1..] == [authors[1]];
      assert Join(", ", authors[..2]) == authors[0] + ", " + authors[1];
    }
  }

  /** `f"[{i}] {author_str}. ({year}). {title}. {journal}."` */
  function ReferenceLine(i: nat, authorText: string, r: Reference): string {
    "[" + NatToString(i) + "] " + authorText + ". (" + r.year + "). " + r.title.GetOr("Untitled") + ". " + r.journal + "."
  }

  /** The numbered lines for the kept references, `[1]` first. */
  function ReferenceLines(top: seq<Reference>): (lines: seq<string>)
    ensures |lines| == |top|
  {
    seq(|top|, k requires 0 <= k < |top| =>
      ReferenceLine(k + 1, ReferenceAuthors(AuthorsOf(top[k])).GetOr(""), top[k]))
  }

  /** The references kept: the 20 highest scoring, in descending order of score. */
  function KeptReferences(bibliography: seq<Reference>): seq<Reference> {
    TopDesc(bibliography, ReferenceScore, MaxReferences)
  }

  predicate HasNoAuthors(top: seq<Reference>) {
    exists k | 0 <= k < |top| :: AuthorsOf(top[k]) == []
  }

  /** What `_generate_references` returns for a bibliography. */
  function ReferencesText(bibliography: seq<Reference>): string {
    if |bibliography| == 0 then Join("\n\n", [Heading, NoBibliography])
    else
      var top := KeptReferences(bibliography);
      if HasNoAuthors(top) then ReferencesFallback
      else Join("\n\n", [Heading] + ReferenceLines(top))
  }

  /** The authors string the loop computes for one reference. */
  lemma ReferenceLinesSnoc(top: seq<Reference>, i: nat, authorText: string)
    requires i < |top|
    requires ReferenceAuthors(AuthorsOf(top[i])) == Some(authorText)
    ensures ReferenceLines(top[..i + 1]) == ReferenceLines(top[..i]) + [ReferenceLine(i + 1, authorText, top[i])]
  {
    var l1, l0 := ReferenceLines(top[..i + 1]), ReferenceLines(top[..i]);
    forall k | 0 <= k < i ensures l1[k] == l0[k] {
      assert top[..i + 1][k] == top[..i][k];
    }
  }

  /** The author string of one entry, by the branches of the loop body; `None`
      where `authors[-1]` raises. */
  method FormatReferenceAuthors(authors: seq<string>) returns (authorText: Option<string>)
    ensures authorText == ReferenceAuthors(authors)
  {
    if |authors| == 1 {
      authorText := Some(authors[0]);
    } else if |authors| <= 3 {
      if |authors| == 0 {
        return None;
      }
      authorText := Some(Join(", ", authors[..|authors| - 1]) + ", & " + authors[|authors| - 1]);
    } else {
      authorText := Some(Join(", ", authors[..2]) + ", et al.");
    }
  }

  /** The loop of `_generate_references` over the kept entries: the numbered
      lines, or `None` where an entry's empty author list makes `authors[-1]` raise. */
  method FormatReferenceLines(top: seq<Reference>) returns (lines: Option<seq<string>>)
    ensures lines.None? <==> HasNoAuthors(top)
    ensures lines.Some? ==> lines.value == ReferenceLines(top)
  {
    var done: seq<string> := [];
    for i := 0 to |top|
      invariant done == ReferenceLines(top[..i])
      invariant !HasNoAuthors(top[..i])
    {
      var ref := top[i];
      var authors := if ref.authors.Some? then ref.authors.value else ["Unknown"];
      assert authors == AuthorsOf(top[i]);
      var authorText := FormatReferenceAuthors(authors);
      if authorText.None? {
        assert AuthorsOf(top[i]) == [];
        return None;
      }
      NoAuthorsSnoc(top, i);
      ReferenceLinesSnoc(top, i, authorText.value);
      done := done + [ReferenceLine(i + 1, authorText.value, ref)];
    }
    assert top[..|top|] == top;
    lines := Some(done);
  }

  /** Extending the checked prefix by an entry with authors keeps it free of empty author lists. */
  lemma NoAuthorsSnoc(top: seq<Reference>, i: nat)
    requires i < |top| && !HasNoAuthors(top[..i]) && AuthorsOf(top[i]) != []
    ensures !HasNoAuthors(top[..i + 1])
  {
    var p := top[..i + 1];
    forall k | 0 <= k < |p| ensures AuthorsOf(p[k]) != [] {
      if k < i {
        assert p[k] == top[..i][k];
      }
    }
  }

  method GenerateReferences(bibliography: seq<Reference>) returns (text: string)
    ensures text == ReferencesText(bibliography)
  {
    var parts := [Heading];
    if |bibliography| > 0 {
      var sorted := SortDesc(bibliography, ReferenceScore);
      var top := Prefix(sorted, MaxReferences);
      assert top == KeptReferences(bibliography);
      var lines := FormatReferenceLines(top);
      if lines.None? {
        text := ReferencesFallback;
        return;
      }
      parts := parts + lines.value;
    } else {
      parts := parts + [NoBibliography];
    }
    text := Join("\n\n", parts);
  }

  /** The fixed fallback comes back when a kept entry has an empty author list;
      otherwise the text opens with the heading. */
  lemma ReferencesFallbackIff(bibliography: seq<Reference>)
    ensures |bibliography| > 0 && HasNoAuthors(KeptReferences(bibliography)) ==>
      ReferencesText(bibliography) == ReferencesFallback
    ensures !(|bibliography| > 0 && HasNoAuthors(KeptReferences(bibliography))) ==>
      |Heading| <= |ReferencesText(bibliography)| && ReferencesText(bibliography)[..|Heading|] == Heading
  {
    if |bibliography| == 0 {
      JoinStartsWith("\n\n", [Heading, NoBibliography]);
    } else if !HasNoAuthors(KeptReferences(bibliography)) {
      JoinStartsWith("\n\n", [Heading] + ReferenceLines(KeptReferences(bibliography)));
    }
  }

  /** At most 20 references are kept, and every one if there are fewer. */
  lemma ReferencesCount(bibliography: seq<Reference>)
    ensures |KeptReferences(bibliography)| == if |bibliography| < MaxReferences then |bibliography| else MaxReferences
    ensures multiset(KeptReferences(bibliography)) <= multiset(bibliography)
  {
    TopDescProperties(bibliography, ReferenceScore, MaxReferences);
  }

  /** The kept references are in descending order of score. */
  lemma ReferencesOrdered(bibliography: seq<Reference>)
    ensures var top := KeptReferences(bibliography);
      forall i, j :: 0 <= i < j < |top| ==> top[i].relevanceScore >= top[j].relevanceScore
  {
    var top := KeptReferences(bibliography);
    TopDescProperties(bibliography, ReferenceScore, MaxReferences);
    forall i, j | 0 <= i < j < |top| ensures top[i].relevanceScore >= top[j].relevanceScore {
      assert !LexLess(ReferenceScore(top[i]), ReferenceScore(top[j]));
      LexLessSingleton(top[i].relevanceScore, top[j].relevanceScore);
    }
  }

  /** No reference left out scores above a kept one. */
  lemma ReferencesMaximal(bibliography: seq<Reference>, x: Reference, y: Reference)
    requires x in KeptReferences(bibliography)
    requires y in multiset(bibliography) - multiset(KeptReferences(bibliography))
    ensures x.relevanceScore >= y.relevanceScore
  {
    TopDescProperties(bibliography, ReferenceScore, MaxReferences);
    assert !LexLess(ReferenceScore(x), ReferenceScore(y));
    LexLessSingleton(x.relevanceScore, y.relevanceScore);
  }

  /** Each line's label is its position counted from 1, and `int()` reads it back. */
  lemma ReferenceLabels(top: seq<Reference>, k: nat)
    requires k < |top|
    ensures var tag := NatToString(k + 1);
      && ReferenceLines(top)[k][..|tag| + 2] == "[" + tag + "]"
      && DigitsValue(tag) == k + 1 && AllDigits(tag)
  {
    var tag := NatToString(k + 1);
    var r := top[k];
    var rest := " " + ReferenceAuthors(AuthorsOf(r)).GetOr("") + ". (" + r.year + "). " + r.title.GetOr("Untitled") + ". " + r.journal + ".";
    var line := ReferenceLines(top)[k];
    assert line == ("[" + tag + "]") + rest;
    assert |"[" + tag + "]"| == |tag| + 2;
    NatToStringRoundTrip(k + 1);
  }

  // ---------------------------------------------------------------------------
  // Sections and word count

  /** A section's value: text, a dictionary of text fields, or anything else. */
  datatype SectionValue = Prose(text: string) | Structured(fields: map<string, string>) | Other

  /** The whitespace-token count a section contributes: only text counts. */
  function SectionWords(v: SectionValue): nat {
    if v.Prose? then |Words(v.text)| else 0
  }

  /** The total over the sections in dictionary order. */
  function SectionsWords(sections: seq<(string, SectionValue)>): nat
    decreases |sections|
  {
    if sections == [] then 0
    else SectionsWords(sections[..|sections| - 1]) + SectionWords(sections[|sections| - 1].1)
  }

  /** The count is additive over a split of the sections. */
  lemma {:induction false} SectionsWordsAppend(a: seq<(string, SectionValue)>, b: seq<(string, SectionValue)>)
    ensures SectionsWords(a + b) == SectionsWords(a) + SectionsWords(b)
    decreases |b|
  {
    if b != [] {
      assert (a + b)[..|a + b| - 1] == a + b[..|b| - 1];
      assert (a + b)[|a + b| - 1] == b[|b| - 1];
      SectionsWordsAppend(a, b[..|b| - 1]);
    } else {
      assert a + b == a;
    }
  }

  /** Sections that are not text add nothing. */
  lemma {:induction false} SectionsWordsOfNoProse(sections: seq<(string, SectionValue)>)
    requires forall k :: 0 <= k < |sections| ==> !sections[k].1.Prose?
    ensures SectionsWords(sections) == 0
    decreases |sections|
  {
    if sections != [] {
      SectionsWordsOfNoProse(sections[..|sections| - 1]);
    }
  }

  /** Text made of words separated by single spaces counts one per word. */
  lemma JoinedWordsCount(ws: seq<string>)
    requires forall k :: 0 <= k < |ws| ==> IsWord(ws[k])
    ensures SectionWords(Prose(Join(" ", ws))) == |ws|
  {
    WordsOfJoin(ws);
  }

  function Names(sections: seq<(string, SectionValue)>): (r: seq<string>)
    ensures |r| == |sections|
  {
    seq(|sections|, k requires 0 <= k < |sections| => sections[k].0)
  }

  // ---------------------------------------------------------------------------
  // The draft

  /** The section names the agent has a generator for. */
  const Generated: set<string> := set k | k in FullStructure

  /** The value stored for section `name`: the references section is built from
      the bibliography; any other section comes from its generator, `None`
      standing for a generator that raised. */
  function SectionFor(name: string, generated: string -> Option<string>, bibliography: seq<Reference>): SectionValue {
    if name == "references" then Prose(ReferencesText(bibliography))
    else match generated(name)
      case Some(t) => Prose(t)
      case None => Prose("Error generating " + name)
  }

  /** The sections the assembly loop produces for `structure`. */
  function DraftSections(structure: seq<string>, generated: string -> Option<string>, bibliography: seq<Reference>):
    (r: seq<(string, SectionValue)>)
    decreases |structure|
  {
    if structure == [] then []
    else
      var front := DraftSections(structure[..|structure| - 1], generated, bibliography);
      var name := structure[|structure| - 1];
      if name in Generated then front + [(name, SectionFor(name, generated, bibliography))] else front
  }

  /** A generated draft: `abstractText` and `sections` are optional because a
      draft that reports an error has neither. */
  class PaperDraft {
    var title: string
    var authors: seq<string>
    var abstractText: Option<string>
    var sections: Option<seq<(string, SectionValue)>>
    var topic: string
    var wordCount: nat
    var structure: seq<string>

    /** The draft as first built: empty abstract, no sections, a zero count. */
    constructor (title: string, topic: string, structure: seq<string>)
      ensures this.title == title && this.topic == topic && this.structure == structure
      ensures authors == [] && abstractText == Some("") && sections == Some([]) && wordCount == 0
    {
      this.title := title;
      this.topic := topic;
      this.structure := structure;
      authors := [];
      abstractText := Some("");
      sections := Some([]);
      wordCount := 0;
    }

    /** `_calculate_word_count`: words of the abstract plus the words of every
        text-valued section. */
    method CalculateWordCount() returns (count: nat)
      ensures count == |Words(abstractText.GetOr(""))| + SectionsWords(sections.GetOr([]))
    {
      count := 0;
      var abstractText := if this.abstractText.Some? then this.abstractText.value else "";
      count := count + |Words(abstractText)|;
      var sections := if this.sections.Some? then this.sections.value else [];
      for k := 0 to |sections|
        invariant count == |Words(abstractText)| + SectionsWords(sections[..k])
      {
        assert sections[..k + 1][..k] == sections[..k];
        if sections[k].1.Prose? {
          count := count + |Words(sections[k].1.text)|;
        }
      }
      assert sections[..|sections|] == sections;
    }

    /** The assembly loop of `generate_draft`: for each section of the structure
        that has a generator, in order, its content is added to the sections. */
    method AssembleSections(generated: string -> Option<string>, bibliography: seq<Reference>)
      requires sections == Some([])
      modifies this
      ensures sections == Some(DraftSections(structure, generated, bibliography))
      ensures title == old(title) && topic == old(topic) && authors == old(authors)
      ensures structure == old(structure) && abstractText == old(abstractText) && wordCount == old(wordCount)
    {
      for k := 0 to |structure|
        invariant title == old(title) && topic == old(topic) && authors == old(authors)
        invariant structure == old(structure) && abstractText == old(abstractText) && wordCount == old(wordCount)
        invariant sections == Some(DraftSections(structure[..k], generated, bibliography))
      {
        var name := structure[k];
        DraftSectionsStep(structure, k, generated, bibliography);
        if name in Generated {
          var content := GenerateSection(name, generated, bibliography);
          sections := Some(sections.value + [(name, content)]);
        }
      }
      assert structure[..|structure|] == structure;
    }
  }

  /** One pass of the assembly loop appends the section for `structure[k]` when
      it has a generator. */
  lemma DraftSectionsStep(structure: seq<string>, k: nat, generated: string -> Option<string>, bibliography: seq<Reference>)
    requires k < |structure|
    ensures DraftSections(structure[..k + 1], generated, bibliography) ==
      if structure[k] in Generated
      then DraftSections(structure[..k], generated, bibliography) + [(structure[k], SectionFor(structure[k], generated, bibliography))]
      else DraftSections(structure[..k], generated, bibliography)
  {
    assert structure[..k + 1][..k] == structure[..k];
  }

  /** The body of the assembly loop for a section that has a generator: the
      references are formatted, any other section is asked of its generator. */
  method GenerateSection(name: string, generated: string -> Option<string>, bibliography: seq<Reference>)
    returns (content: SectionValue)
    ensures content == SectionFor(name, generated, bibliography)
  {
    if name == "references" {
      var text := GenerateReferences(bibliography);
      content := Prose(text);
    } else {
      var result := generated(name);
      if result.Some? {
        content := Prose(result.value);
      } else {
        content := Prose("Error generating " + name);
      }
    }
  }

  /** `generate_draft`. The section generators are the opaque `generated`; the
      abstract generated last is `abstractText`. */
  method GenerateDraft(topic: string, keyFindings: seq<string>, paperType: string, length: string,
                       generated: string -> Option<string>, abstractText: string, bibliography: seq<Reference>)
    returns (draft: PaperDraft)
    ensures fresh(draft)
    ensures draft.title == GenerateTitle(topic, keyFindings) && draft.topic == topic && draft.authors == []
    ensures draft.structure == PaperStructure(paperType, length)
    ensures draft.sections == Some(DraftSections(draft.structure, generated, bibliography))
    ensures draft.wordCount == SectionsWords(DraftSections(draft.structure, generated, bibliography))
    ensures draft.abstractText == Some(abstractText)
  {
    var structure := DeterminePaperStructure(paperType, length);
    draft := new PaperDraft(GenerateTitle(topic, keyFindings), topic, structure);
    draft.AssembleSections(generated, bibliography);
    var count := draft.CalculateWordCount();
    assert Words("") == [];
    draft.wordCount := count;
    draft.abstractText := Some(abstractText);
  }

  lemma NamesSnoc(sections: seq<(string, SectionValue)>, entry: (string, SectionValue))
    ensures Names(sections + [entry]) == Names(sections) + [entry.0]
  {
  }

  /** Only sections with a generator appear, in structure order; for the
      structures the agent chooses, that drops exactly the extra sections of a
      long paper. */
  lemma {:induction false} DraftSectionNames(structure: seq<string>, generated: string -> Option<string>, bibliography: seq<Reference>)
    requires forall x :: x in structure ==> x in FullStructure || x in LongExtra
    ensures Names(DraftSections(structure, generated, bibliography)) == Without(structure, set x | x in LongExtra)
    decreases |structure|
  {
    if structure != [] {
      var front := structure[..|structure| - 1];
      var name := structure[|structure| - 1];
      DraftSectionNames(front, generated, bibliography);
      var sections := DraftSections(front, generated, bibliography);
      NamesSnoc(sections, (name, SectionFor(name, generated, bibliography)));
      assert name in Generated <==> name in FullStructure;
      assert name in FullStructure <==> name !in LongExtra;
    }
  }

  /** The extra sections of a long paper never appear in the draft. */
  lemma NoExtraSections(structure: seq<string>, generated: string -> Option<string>, bibliography: seq<Reference>)
    requires forall x :: x in structure ==> x in FullStructure || x in LongExtra
    ensures var names := Names(DraftSections(structure, generated, bibliography));
      "limitations" !in names && "future_work" !in names
  {
    DraftSectionNames(structure, generated, bibliography);
  }

  /** A section whose generator raised holds the error text naming it. */
  lemma FailedSectionText(name: string, generated: string -> Option<string>, bibliography: seq<Reference>)
    requires name != "references" && generated(name).None?
    ensures SectionFor(name, generated, bibliography) == Prose("Error generating " + name)
  {
  }
}
