/** The coordinator's last step on a draft: every citation placeholder in the
    abstract and in the sections is replaced, in place, by the formatted
    citation of the paper it numbers. */
module Coordinator {
  import opened Wrappers
  import opened CitationFormat
  import opened CitationPlaceholders
  import opened PaperGenerator

  /** How one section value is rewritten: text is replaced, a dictionary with
      a `content` entry has only that entry replaced, anything else stays. */
  function RewriteSection(v: SectionValue, papers: seq<Paper>, style: string): SectionValue {
    match v
    case Prose(t) => Prose(ReplacedText(t, papers, style))
    case Structured(fields) =>
      if "content" in fields then Structured(fields["content" := ReplacedText(fields["content"], papers, style)])
      else v
    case Other => v
  }

  /** Every section rewritten, element by element; `RewriteKeepsNames` and
      `RewriteOnlyContent` state what the rewrite leaves alone. */
  function RewriteSections(sections: seq<(string, SectionValue)>, papers: seq<Paper>, style: string):
    (r: seq<(string, SectionValue)>)
    ensures |r| == |sections|
    ensures forall k :: 0 <= k < |r| ==> r[k] == (sections[k].0, RewriteSection(sections[k].1, papers, style))
  {
    seq(|sections|, k requires 0 <= k < |sections| => (sections[k].0, RewriteSection(sections[k].1, papers, style)))
  }

  /** The sections after the loop has rewritten the first `k` of them. */
  function PartlyRewritten(sections: seq<(string, SectionValue)>, k: nat, papers: seq<Paper>, style: string):
    seq<(string, SectionValue)>
    requires k <= |sections|
  {
    RewriteSections(sections, papers, style)[..k] + sections[k..]
  }

  /** Overwriting entry `k` of `done[..k] + todo[k..]` with `done[k]` moves the
      boundary one entry on. */
  lemma SpliceStep<T>(done: seq<T>, todo: seq<T>, k: nat)
    requires |done| == |todo| && k < |todo|
    ensures |done[..k] + todo[k..]| == |todo|
    ensures (done[..k] + todo[k..])[k] == todo[k]
    ensures done[..k + 1] + todo[k + 1..] == (done[..k] + todo[k..])[k := done[k]]
  {
    var before := done[..k] + todo[k..];
    var after := done[..k + 1] + todo[k + 1..];
    forall m | 0 <= m < |after| ensures after[m] == before[k := done[k]][m] {
      if m > k {
        assert after[m] == todo[k + 1..][m - k - 1];
        assert before[m] == todo[k..][m - k];
      }
    }
  }

  /** One pass of the loop overwrites entry `k` with its rewritten value. */
  lemma PartlyRewrittenStep(sections: seq<(string, SectionValue)>, k: nat, papers: seq<Paper>, style: string)
    requires k < |sections|
    ensures |PartlyRewritten(sections, k, papers, style)| == |sections|
    ensures PartlyRewritten(sections, k, papers, style)[k] == sections[k]
    ensures PartlyRewritten(sections, k + 1, papers, style) ==
      PartlyRewritten(sections, k, papers, style)[k := (sections[k].0, RewriteSection(sections[k].1, papers, style))]
  {
    SpliceStep(RewriteSections(sections, papers, style), sections, k);
  }

  lemma PartlyRewrittenEnds(sections: seq<(string, SectionValue)>, papers: seq<Paper>, style: string)
    ensures PartlyRewritten(sections, 0, papers, style) == sections
    ensures PartlyRewritten(sections, |sections|, papers, style) == RewriteSections(sections, papers, style)
  {
    assert sections[0..] == sections;
    assert RewriteSections(sections, papers, style)[..|sections|] == RewriteSections(sections, papers, style);
  }

  /** The rewriting of one section value, by the placeholder step. */
  method RewriteValue(content: SectionValue, papers: seq<Paper>, style: string) returns (v: SectionValue)
    ensures v == RewriteSection(content, papers, style)
  {
    v := content;
    match content {
      case Structured(fields) =>
        if "content" in fields {
          var replaced := ReplaceCitationPlaceholders(fields["content"], papers, style);
          v := Structured(fields["content" := replaced]);
        }
      case Prose(text) =>
        var replaced := ReplaceCitationPlaceholders(text, papers, style);
        v := Prose(replaced);
      case Other =>
    }
  }

  /** `_replace_citations_in_draft`: the same draft comes back, its abstract
      (if it has one) and its sections (if it has any) rewritten, and nothing
      else changed. */
  method ReplaceCitationsInDraft(draft: PaperDraft, papers: seq<Paper>, style: string) returns (result: PaperDraft)
    modifies draft
    ensures result == draft
    ensures draft.abstractText ==
      match old(draft.abstractText)
      case Some(a) => Some(ReplacedText(a, papers, style))
      case None => None
    ensures draft.sections ==
      match old(draft.sections)
      case Some(ss) => Some(RewriteSections(ss, papers, style))
      case None => None
    ensures draft.title == old(draft.title) && draft.authors == old(draft.authors) && draft.topic == old(draft.topic)
    ensures draft.wordCount == old(draft.wordCount) && draft.structure == old(draft.structure)
  {
    if draft.abstractText.Some? {
      var replaced := ReplaceCitationPlaceholders(draft.abstractText.value, papers, style);
      draft.abstractText := Some(replaced);
    }
    if draft.sections.Some? {
      ghost var original := draft.sections.value;
      ghost var abstractText := draft.abstractText;
      PartlyRewrittenEnds(original, papers, style);
      var count := |draft.sections.value|;
      for k := 0 to count
        invariant count == |original|
        invariant draft.sections == Some(PartlyRewritten(original, k, papers, style))
        invariant draft.abstractText == abstractText
        invariant draft.title == old(draft.title) && draft.authors == old(draft.authors) && draft.topic == old(draft.topic)
        invariant draft.wordCount == old(draft.wordCount) && draft.structure == old(draft.structure)
      {
        PartlyRewrittenStep(original, k, papers, style);
        var sections := draft.sections.value;
        var name, content := sections[k].0, sections[k].1;
        if content.Prose? || (content.Structured? && "content" in content.fields) {
          var v := RewriteValue(content, papers, style);
          draft.sections := Some(sections[k := (name, v)]);
        } else {
          assert RewriteSection(content, papers, style) == content;
          assert sections[k := (name, content)] == sections;
        }
      }
    }
    result := draft;
  }

  /** The section names and their order are unchanged. */
  lemma RewriteKeepsNames(sections: seq<(string, SectionValue)>, papers: seq<Paper>, style: string)
    ensures Names(RewriteSections(sections, papers, style)) == Names(sections)
  {
  }

  /** A dictionary section keeps its keys and every entry but `content`. */
  lemma RewriteOnlyContent(fields: map<string, string>, papers: seq<Paper>, style: string)
    ensures RewriteSection(Structured(fields), papers, style).Structured?
    ensures var after := RewriteSection(Structured(fields), papers, style).fields;
      && after.Keys == fields.Keys
      && (forall key :: key in fields && key != "content" ==> after[key] == fields[key])
      && ("content" in fields ==> after["content"] == ReplacedText(fields["content"], papers, style))
  {
  }

  /** Text whose placeholders all number beyond the paper list is left as it is. */
  lemma RewriteUncited(text: string, papers: seq<Paper>, style: string)
    requires forall d | d in FindAll(text) :: Text.DigitsValue(d) > |papers|
    ensures RewriteSection(Prose(text), papers, style) == Prose(text)
  {
    OutOfRangeUnchanged(text, papers, style);
  }

  /** A section that is just the label `[n]`, as a reference list numbers its
      lines, is turned into the citation of the n-th paper. */
  lemma LabelSectionRewritten(n: nat, papers: seq<Paper>, style: string)
    requires 1 <= n <= |papers| && Citation(papers[n - 1], style).Some?
    ensures RewriteSection(Prose("[" + Text.NatToString(n) + "]"), papers, style) == Prose(Citation(papers[n - 1], style).value)
  {
    CitesNthPaper(n, papers, style);
  }
}
