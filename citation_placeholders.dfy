/** Replacement of numbered citation placeholders `[n]` in generated text by the
    formatted citation of the n-th cited paper.

    The regular expression `\[(\d+)\]` is modelled by a left-to-right tokenizer:
    at a `[` followed by one or more ASCII digits and a `]` it emits a
    placeholder token, anywhere else a character token. Both `re.findall` and
    `re.sub` scan the text this way, taking the leftmost match and resuming after it. */
module CitationPlaceholders {
  import opened Wrappers
  import opened Text
  import opened CitationFormat

  // ---------------------------------------------------------------------------
  // Tokenizing

  /** Length of the maximal run of digits at the start of `s`. */
  function DigitRun(s: string): (n: nat)
    ensures n <= |s|
    ensures forall i :: 0 <= i < n ==> IsDigit(s[i])
    ensures n < |s| ==> !IsDigit(s[n])
    decreases |s|
  {
    if s == [] || !IsDigit(s[0]) then 0 else 1 + DigitRun(s[1..])
  }

  /** `s` begins with a match of `\[(\d+)\]`. */
  predicate MatchAtStart(s: string) {
    |s| > 0 && s[0] == '[' && 0 < DigitRun(s[1..]) && DigitRun(s[1..]) + 1 < |s| && s[DigitRun(s[1..]) + 1] == ']'
  }

  datatype Token = Char(c: char) | Placeholder(digits: string)

  function Tokens(s: string): seq<Token>
    decreases |s|
  {
    if s == [] then []
    else if MatchAtStart(s) then
      var n := DigitRun(s[1..]);
      [Placeholder(s[1..n + 1])] + Tokens(s[n + 2..])
    else [Char(s[0])] + Tokens(s[1..])
  }

  function TokenText(t: Token): string {
    match t
    case Char(c) => [c]
    case Placeholder(d) => "[" + d + "]"
  }

  function Untokenize(ts: seq<Token>): string
    decreases |ts|
  {
    if ts == [] then "" else TokenText(ts[0]) + Untokenize(ts[1..])
  }

  /** Tokenizing loses nothing: the tokens spell the text. */
  lemma {:induction false} TokensRoundTrip(s: string)
    ensures Untokenize(Tokens(s)) == s
    decreases |s|
  {
    if s != [] {
      if MatchAtStart(s) {
        TokensRoundTrip(s[DigitRun(s[1..]) + 2..]);
        RoundTripAtMatch(s);
      } else {
        TokensRoundTrip(s[1..]);
        RoundTripAtChar(s);
      }
    }
  }

  lemma RoundTripAtMatch(s: string)
    requires MatchAtStart(s)
    requires Untokenize(Tokens(s[DigitRun(s[1..]) + 2..])) == s[DigitRun(s[1..]) + 2..]
    ensures Untokenize(Tokens(s)) == s
  {
    var n := DigitRun(s[1..]);
    var d, rest := s[1..n + 1], s[n + 2..];
    assert Tokens(s) == [Placeholder(d)] + Tokens(rest);
    UntokenizeCons(Placeholder(d), Tokens(rest));
    SplitAtBrackets(s, n);
  }

  /** A text opening with `[`, with `]` at position `n + 1`, is the bracketed
      middle followed by the rest. */
  lemma SplitAtBrackets(s: string, n: nat)
    requires n + 2 <= |s| && s[0] == '[' && s[n + 1] == ']'
    ensures s == "[" + s[1..n + 1] + "]" + s[n + 2..]
  {
    assert s == s[..1] + s[1..n + 1] + s[n + 1..n + 2] + s[n + 2..];
  }

  lemma RoundTripAtChar(s: string)
    requires s != [] && !MatchAtStart(s)
    requires Untokenize(Tokens(s[1..])) == s[1..]
    ensures Untokenize(Tokens(s)) == s
  {
    assert Tokens(s) == [Char(s[0])] + Tokens(s[1..]);
    UntokenizeCons(Char(s[0]), Tokens(s[1..]));
    assert s == [s[0]] + s[1..];
  }

  lemma UntokenizeCons(t: Token, ts: seq<Token>)
    ensures Untokenize([t] + ts) == TokenText(t) + Untokenize(ts)
  {
    assert ([t] + ts)[1..] == ts;
  }

  /** The digit groups of the tokens, in order. */
  function Digits(ts: seq<Token>): seq<string>
    decreases |ts|
  {
    if ts == [] then []
    else match ts[0]
      case Char(_) => Digits(ts[1..])
      case Placeholder(d) => [d] + Digits(ts[1..])
  }

  /** `re.findall(r'\[(\d+)\]', text)`. */
  function FindAll(text: string): seq<string> {
    Digits(Tokens(text))
  }

  /** Every group found is a non-empty run of digits. */
  lemma {:induction false} FindAllDigits(s: string)
    ensures forall k :: 0 <= k < |FindAll(s)| ==> |FindAll(s)[k]| > 0 && AllDigits(FindAll(s)[k])
    decreases |s|
  {
    if s != [] {
      if MatchAtStart(s) {
        var n := DigitRun(s[1..]);
        var d, rest := s[1..n + 1], s[n + 2..];
        FindAllDigits(rest);
        assert ([Placeholder(d)] + Tokens(rest))[1..] == Tokens(rest);
        assert FindAll(s) == [d] + FindAll(rest);
        forall k | 0 <= k < |d| ensures IsDigit(d[k]) {
          assert d[k] == s[1..][k];
        }
      } else {
        FindAllDigits(s[1..]);
        assert ([Char(s[0])] + Tokens(s[1..]))[1..] == Tokens(s[1..]);
        assert FindAll(s) == FindAll(s[1..]);
      }
    }
  }

  /** `[`, one or more digits and `]` occupy positions `i..j` of `s`. */
  predicate PlaceholderSpan(s: string, i: int, j: int) {
    0 <= i && i + 1 < j < |s| && s[i] == '[' && s[j] == ']' && forall k :: i < k < j ==> IsDigit(s[k])
  }

  /** A text has a placeholder exactly when some span of it reads `[digits]`. */
  lemma {:induction false} FindAllEmptyIff(s: string)
    ensures FindAll(s) == [] <==> !exists i, j :: PlaceholderSpan(s, i, j)
    decreases |s|
  {
    if s == [] {
    } else if MatchAtStart(s) {
      var n := DigitRun(s[1..]);
      assert PlaceholderSpan(s, 0, n + 1) by {
        forall k | 0 < k < n + 1 ensures IsDigit(s[k]) {
          assert s[k] == s[1..][k - 1];
        }
      }
    } else {
      FindAllEmptyIff(s[1..]);
      assert FindAll(s) == FindAll(s[1..]);
      if exists i, j :: PlaceholderSpan(s, i, j) {
        var i, j :| PlaceholderSpan(s, i, j);
        if i == 0 {
          DigitRunSpan(s, j);
          assert false;
        }
        assert PlaceholderSpan(s[1..], i - 1, j - 1);
      }
      if exists i, j :: PlaceholderSpan(s[1..], i, j) {
        var i, j :| PlaceholderSpan(s[1..], i, j);
        assert PlaceholderSpan(s, i + 1, j + 1);
      }
    }
  }

  /** A span starting at position 0 is the match the tokenizer takes there. */
  lemma DigitRunSpan(s: string, j: int)
    requires PlaceholderSpan(s, 0, j)
    ensures MatchAtStart(s) && DigitRun(s[1..]) + 1 == j
  {
    var t := s[1..];
    var n := DigitRun(t);
    forall k | 0 <= k < j - 1 ensures IsDigit(t[k]) {
      assert t[k] == s[k + 1];
    }
    assert !IsDigit(t[j - 1]);
  }

  /** A digit string closed by `]` is one placeholder token. */
  lemma SinglePlaceholder(ds: string)
    requires |ds| > 0 && AllDigits(ds)
    ensures Tokens("[" + ds + "]") == [Placeholder(ds)]
  {
    var s := "[" + ds + "]";
    assert s[1..] == ds + "]";
    DigitRunPrefix(ds, "]");
    assert s[1..|ds| + 1] == ds;
    assert s[|ds| + 2..] == [];
  }

  lemma {:induction false} DigitRunPrefix(ds: string, rest: string)
    requires AllDigits(ds)
    requires rest == [] || !IsDigit(rest[0])
    ensures DigitRun(ds + rest) == |ds|
    decreases |ds|
  {
    if ds != [] {
      assert (ds + rest)[1..] == ds[1..] + rest;
      DigitRunPrefix(ds[1..], rest);
    } else {
      assert ds + rest == rest;
    }
  }

  // ---------------------------------------------------------------------------
  // What a number resolves to

  /** The outcome of looking up one placeholder number: it is left alone, it is
      given a citation, or the lookup raises (and the whole text is returned as it was). */
  datatype Lookup = Skipped | Cited(text: string) | Raised

  /** The citation of the paper at `idx` when `idx < len(papers)`, with Python's
      reading of a negative index: `-1` is the last paper, and on an empty list
      the indexing raises. */
  function LookupIndex(idx: int, papers: seq<Paper>, style: string): Lookup {
    if idx < |papers| then
      if |papers| == 0 || idx < -|papers| then Raised
      else
        var paper := papers[if idx < 0 then |papers| + idx else idx];
        match Citation(paper, style)
        case None => Raised
        case Some(c) => Cited(c)
    else Skipped
  }

  /** `idx = int(num) - 1`; only `idx < len(papers)` is checked, so `[0]` gives
      index -1, which Python reads as the last paper, and raises when there are none. */
  function LookupCitation(num: string, papers: seq<Paper>, style: string): Lookup {
    LookupIndex(DigitsValue(num) - 1, papers, style)
  }

  /** The citation map built for the distinct numbers `nums`. */
  function CitationMap(nums: set<string>, papers: seq<Paper>, style: string): map<string, string> {
    map d | d in nums && LookupCitation(d, papers, style).Cited? :: LookupCitation(d, papers, style).text
  }

  /** `re.sub` with `citation_map.get(num, match)`. */
  function Substitute(ts: seq<Token>, m: map<string, string>): string
    decreases |ts|
  {
    if ts == [] then ""
    else
      var head := match ts[0]
        case Char(c) => [c]
        case Placeholder(d) => if d in m then m[d] else "[" + d + "]";
      head + Substitute(ts[1..], m)
  }

  /** The text after replacement: unchanged when there is no placeholder or when a
      lookup raises, otherwise every placeholder with a citation replaced. */
  function ReplacedText(text: string, papers: seq<Paper>, style: string): string {
    var nums := FindAll(text);
    if nums == [] then text
    else if exists d | d in nums :: LookupCitation(d, papers, style).Raised? then text
    else Substitute(Tokens(text), CitationMap((set d | d in nums), papers, style))
  }

  // ---------------------------------------------------------------------------
  // The agent's loop

  lemma CitationMapAdd(done: set<string>, num: string, papers: seq<Paper>, style: string)
    ensures LookupCitation(num, papers, style).Cited? ==>
      CitationMap(done + {num}, papers, style) == CitationMap(done, papers, style)[num := LookupCitation(num, papers, style).text]
    ensures !LookupCitation(num, papers, style).Cited? ==>
      CitationMap(done + {num}, papers, style) == CitationMap(done, papers, style)
  {
  }

  /** `paper = papers[placeholder_idx]` and its citation. */
  method CitePaper(idx: int, papers: seq<Paper>, style: string) returns (lookup: Lookup)
    requires idx < |papers|
    ensures lookup == LookupIndex(idx, papers, style)
  {
    if |papers| == 0 || idx < -|papers| {
      return Raised;
    }
    var c := FormatCitation(papers[if idx < 0 then |papers| + idx else idx], style);
    lookup := if c.Some? then Cited(c.value) else Raised;
  }

  method ReplaceCitationPlaceholders(text: string, papers: seq<Paper>, style: string) returns (result: string)
    ensures result == ReplacedText(text, papers, style)
  {
    var placeholders := FindAll(text);
    if placeholders == [] {
      return text;
    }
    var citationMap: map<string, string> := map[];
    var usedPapers: set<int> := {};
    var pending := set d | d in placeholders;
    ghost var done: set<string> := {};
    while pending != {}
      invariant pending + done == set d | d in placeholders
      invariant pending !! done
      invariant citationMap == CitationMap(done, papers, style)
      invariant forall d :: d in done ==> !LookupCitation(d, papers, style).Raised?
      decreases pending
    {
      var num :| num in pending;
      var idx := DigitsValue(num) - 1;
      var lookup: Lookup := Skipped;
      if idx < |papers| && idx !in usedPapers {
        lookup := CitePaper(idx, papers, style);
        usedPapers := usedPapers + {idx};
      } else if idx < |papers| {
        lookup := CitePaper(idx, papers, style);
      }
      assert lookup == LookupCitation(num, papers, style);
      if lookup.Raised? {
        assert num in placeholders;
        return text;
      }
      CitationMapAdd(done, num, papers, style);
      if lookup.Cited? {
        citationMap := citationMap[num := lookup.text];
      }
      pending := pending - {num};
      done := done + {num};
    }
    assert done == set d | d in placeholders;
    result := Substitute(Tokens(text), citationMap);
  }

  // ---------------------------------------------------------------------------
  // Properties

  /** Each placeholder rendered on its own, occurrence by occurrence. */
  function Rendered(ts: seq<Token>, papers: seq<Paper>, style: string): string
    decreases |ts|
  {
    if ts == [] then ""
    else
      var head := match ts[0]
        case Char(c) => [c]
        case Placeholder(d) =>
          match LookupCitation(d, papers, style)
          case Cited(t) => t
          case _ => "[" + d + "]";
      head + Rendered(ts[1..], papers, style)
  }

  lemma {:induction false} SubstituteIsRendered(ts: seq<Token>, nums: set<string>, papers: seq<Paper>, style: string)
    requires forall k :: 0 <= k < |Digits(ts)| ==> Digits(ts)[k] in nums
    ensures Substitute(ts, CitationMap(nums, papers, style)) == Rendered(ts, papers, style)
    decreases |ts|
  {
    if ts != [] {
      if ts[0].Placeholder? {
        assert Digits(ts) == [ts[0].digits] + Digits(ts[1..]);
        assert Digits(ts)[0] == ts[0].digits;
        forall k | 0 <= k < |Digits(ts[1..])| ensures Digits(ts[1..])[k] in nums {
          assert Digits(ts[1..])[k] == Digits(ts)[k + 1];
        }
      } else {
        assert Digits(ts) == Digits(ts[1..]);
      }
      SubstituteIsRendered(ts[1..], nums, papers, style);
    }
  }

  /** Without any cited lookup, rendering gives the text back. */
  lemma {:induction false} RenderedNothingCited(ts: seq<Token>, papers: seq<Paper>, style: string)
    requires forall k :: 0 <= k < |Digits(ts)| ==> !LookupCitation(Digits(ts)[k], papers, style).Cited?
    ensures Rendered(ts, papers, style) == Untokenize(ts)
    decreases |ts|
  {
    if ts != [] {
      if ts[0].Placeholder? {
        assert Digits(ts) == [ts[0].digits] + Digits(ts[1..]);
        assert Digits(ts)[0] == ts[0].digits;
        forall k | 0 <= k < |Digits(ts[1..])| ensures !LookupCitation(Digits(ts[1..])[k], papers, style).Cited? {
          assert Digits(ts[1..])[k] == Digits(ts)[k + 1];
        }
      } else {
        assert Digits(ts) == Digits(ts[1..]);
      }
      RenderedNothingCited(ts[1..], papers, style);
    }
  }

  /** Unless a lookup raises, every occurrence of `[n]` becomes what `n` resolves to,
      and equal numbers get equal text. */
  lemma ReplacedTextPerOccurrence(text: string, papers: seq<Paper>, style: string)
    ensures (exists d | d in FindAll(text) :: LookupCitation(d, papers, style).Raised?) ==>
      ReplacedText(text, papers, style) == text
    ensures (forall d | d in FindAll(text) :: !LookupCitation(d, papers, style).Raised?) ==>
      ReplacedText(text, papers, style) == Rendered(Tokens(text), papers, style)
  {
    var nums := FindAll(text);
    if forall d | d in nums :: !LookupCitation(d, papers, style).Raised? {
      if nums == [] {
        TokensRoundTrip(text);
        RenderedNothingCited(Tokens(text), papers, style);
      } else {
        SubstituteIsRendered(Tokens(text), (set d | d in nums), papers, style);
      }
    }
  }

  /** Numbers beyond the paper list are left as they are; if all are, so is the text. */
  lemma OutOfRangeUnchanged(text: string, papers: seq<Paper>, style: string)
    requires forall d | d in FindAll(text) :: DigitsValue(d) > |papers|
    ensures ReplacedText(text, papers, style) == text
  {
    ReplacedTextPerOccurrence(text, papers, style);
    TokensRoundTrip(text);
    RenderedNothingCited(Tokens(text), papers, style);
  }

  /** A text that is one placeholder becomes what its number resolves to. */
  lemma SinglePlaceholderReplaced(ds: string, papers: seq<Paper>, style: string)
    requires |ds| > 0 && AllDigits(ds)
    ensures ReplacedText("[" + ds + "]", papers, style) ==
      match LookupCitation(ds, papers, style)
      case Cited(c) => c
      case _ => "[" + ds + "]"
  {
    var text := "[" + ds + "]";
    SinglePlaceholder(ds);
    assert [Placeholder(ds)][1..] == [];
    assert Digits([Placeholder(ds)]) == [ds];
    assert FindAll(text) == [ds];
    ReplacedTextPerOccurrence(text, papers, style);
    assert Rendered([Placeholder(ds)], papers, style) ==
      (match LookupCitation(ds, papers, style) case Cited(c) => c case _ => "[" + ds + "]") + Rendered([], papers, style);
  }

  /** `[n]` with `1 <= n <= len(papers)` becomes the citation of the n-th paper. */
  lemma CitesNthPaper(n: nat, papers: seq<Paper>, style: string)
    requires 1 <= n <= |papers|
    requires Citation(papers[n - 1], style).Some?
    ensures ReplacedText("[" + NatToString(n) + "]", papers, style) == Citation(papers[n - 1], style).value
  {
    var ds := NatToString(n);
    NatToStringRoundTrip(n);
    LookupNth(ds, n, papers, style);
    SinglePlaceholderCited(ds, papers, style, Citation(papers[n - 1], style).value);
  }

  lemma LookupNth(ds: string, n: nat, papers: seq<Paper>, style: string)
    requires DigitsValue(ds) == n && 1 <= n <= |papers|
    requires Citation(papers[n - 1], style).Some?
    ensures LookupCitation(ds, papers, style) == Cited(Citation(papers[n - 1], style).value)
  {
  }

  lemma SinglePlaceholderCited(ds: string, papers: seq<Paper>, style: string, c: string)
    requires |ds| > 0 && AllDigits(ds)
    requires LookupCitation(ds, papers, style) == Cited(c)
    ensures ReplacedText("[" + ds + "]", papers, style) == c
  {
    SinglePlaceholderReplaced(ds, papers, style);
  }

  /** `[0]` is read as index -1: the last paper, and a failure when there are none. */
  lemma ZeroIsLastPaper(papers: seq<Paper>, style: string)
    ensures |papers| == 0 ==> ReplacedText("[0]", papers, style) == "[0]"
    ensures |papers| > 0 && Citation(papers[|papers| - 1], style).Some? ==>
      ReplacedText("[0]", papers, style) == Citation(papers[|papers| - 1], style).value
  {
    assert "[" + "0" + "]" == "[0]";
    assert DigitsValue("0") == 0 by {
      assert "0"[..0] == [];
    }
    SinglePlaceholderReplaced("0", papers, style);
  }
}
